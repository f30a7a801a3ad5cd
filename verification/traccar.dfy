/** The Traccar client calls of `zone.py`: how `fetch_positions` and
    `fetch_devices` turn an HTTP answer into a result. The request itself, its
    query parameters and JSON decoding are outside the model: the status
    code, the raw body and what decoding produced are parameters. */
module Traccar {
  import opened Wrappers
  import opened Bytes
  import opened Seqs
  import opened Text

  /** A decoded JSON body: something `len` accepts, seen as its items, or a
      number, boolean or null, on which `len` raises TypeError. */
  datatype Body<T> = Items(items: seq<T>) | Unsized

  datatype FetchError =
    | HttpError(status: int)  // raise_for_status
    | BadJson                 // resp.json() raised ValueError, not caught
    | NotSized                // len() raised TypeError

  /** `requests`' raise_for_status: client and server errors. */
  predicate ErrorStatus(status: int) {
    400 <= status < 600
  }

  /** The bytes `bytes.strip()` removes: space, \t, \n, \v, \f, \r. */
  predicate ByteSpace(b: Byte) {
    b == 32 || 9 <= b <= 13
  }

  /** `f"{base.rstrip('/')}{path}"`. */
  function Endpoint(base: string, path: string): (r: string)
    ensures var k := |r| - |path|;
      && 0 <= k <= |base| && r == base[..k] + path
      && (k > 0 ==> base[k - 1] != '/')
      && forall i :: k <= i < |base| ==> base[i] == '/'
  {
    StripEnd(base, IsSlash) + path
  }

  predicate IsSlash(c: char) {
    c == '/'
  }

  /** A trailing slash on the configured base URL makes no difference. */
  lemma EndpointSlash(base: string, path: string)
    ensures Endpoint(base + "/", path) == Endpoint(base, path)
  {
    assert (base + "/")[..|base|] == base;
  }

  /** `fetch_positions` after the request: a 404 means no positions, another
      error status raises; an empty (204) or blank body and a body that is not
      JSON mean no positions; `len` must accept what was decoded. */
  function FetchPositions<T>(status: int, content: seq<Byte>, decoded: Option<Body<T>>): (r: Result<seq<T>, FetchError>)
    ensures r.Err? <==>
      (ErrorStatus(status) && status != 404)
      || (!ErrorStatus(status) && status != 204 && !Blank(content, ByteSpace) && decoded == Some(Unsized))
    ensures r.Err? && r.error.HttpError? ==> r.error.status == status
    ensures r.Ok? && r.value != [] ==> decoded == Some(Items(r.value))
  {
    StripBlank(content, ByteSpace);
    if ErrorStatus(status) then
      if status == 404 then Ok([]) else Err(HttpError(status))
    else if status == 204 || Strip(content, ByteSpace) == [] then Ok([])
    else match decoded
      case None => Ok([])
      case Some(Unsized) => Err(NotSized)
      case Some(Items(xs)) => Ok(xs)
  }

  /** A successful answer whose body holds something besides whitespace
      yields exactly the decoded list. */
  lemma PositionsDelivered<T>(status: int, content: seq<Byte>, xs: seq<T>)
    requires !ErrorStatus(status) && status != 204
    requires exists i :: 0 <= i < |content| && !ByteSpace(content[i])
    ensures FetchPositions(status, content, Some(Items(xs))) == Ok(xs)
  {
    StripBlank(content, ByteSpace);
  }

  /** A body of whitespace only yields no positions, whatever decoding would
      have said. */
  lemma BlankBodyNoPositions<T>(status: int, content: seq<Byte>, decoded: Option<Body<T>>)
    requires !ErrorStatus(status)
    requires forall i :: 0 <= i < |content| ==> ByteSpace(content[i])
    ensures FetchPositions(status, content, decoded) == Ok([])
  {
    StripBlank(content, ByteSpace);
  }

  /** A device as `fetch_devices` sees it: its `name` key, if any. */
  datatype Device<A> = Device(name: Option<string>, rest: A)

  function Named<A>(name: string): Device<A> -> bool {
    (d: Device<A>) => d.name == Some(name)
  }

  /** `fetch_devices` after the request: errors and undecodable bodies raise;
      a non-empty `TRACCAR_DEVICE_NAME` keeps only the devices of that name. */
  function FetchDevices<A>(status: int, decoded: Option<Body<Device<A>>>, deviceName: Option<string>): (r: Result<seq<Device<A>>, FetchError>)
    ensures r.Err? <==> ErrorStatus(status) || decoded.None? || decoded == Some(Unsized)
    ensures r.Ok? ==> |r.value| <= |decoded.value.items|
  {
    if ErrorStatus(status) then Err(HttpError(status))
    else match decoded
      case None => Err(BadJson)
      case Some(Unsized) => Err(NotSized)
      case Some(Items(ds)) =>
        if deviceName.Some? && |deviceName.value| > 0 then Ok(Filter(ds, Named(deviceName.value))) else Ok(ds)
  }

  /** With a device name set, a device is returned exactly when the server
      listed it under that name; without one, everything is returned as is. */
  lemma DevicesSelected<A>(status: int, ds: seq<Device<A>>, deviceName: Option<string>, d: Device<A>)
    requires !ErrorStatus(status)
    ensures var r := FetchDevices(status, Some(Items(ds)), deviceName);
      && r.Ok?
      && (deviceName.None? || deviceName == Some("") ==> r.value == ds)
      && (deviceName.Some? && deviceName != Some("") ==> (d in r.value <==> d in ds && d.name == deviceName))
  {
    if deviceName.Some? {
      FilterMember(ds, Named(deviceName.value), d);
    }
  }
}
