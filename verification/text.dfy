/** Python's `str`/`bytes` helpers the remote, version and response handling
    use: `strip`, `in`, `split` and `partition`. Generic in the element type;
    what counts as whitespace is a parameter. */
module Text {
  import opened Wrappers

  /** `str.isspace` for one character: the code points Python strips. */
  predicate PySpace(c: char) {
    var n := c as int;
    n == 32 || 9 <= n <= 13 || 28 <= n <= 31 || n == 0x85 || n == 0xA0 || n == 0x1680
    || 0x2000 <= n <= 0x200A || n == 0x2028 || n == 0x2029 || n == 0x202F || n == 0x205F || n == 0x3000
  }

  // ---------------------------------------------------------------------------
  // strip

  function StripStart<T>(s: seq<T>, space: T -> bool): (r: seq<T>)
    ensures |r| <= |s| && r == s[|s| - |r|..]
    ensures |r| > 0 ==> !space(r[0])
    ensures Blank(s[..|s| - |r|], space)
  {
    if |s| > 0 && space(s[0]) then StripStart(s[1..], space) else s
  }

  function StripEnd<T>(s: seq<T>, space: T -> bool): (r: seq<T>)
    ensures |r| <= |s| && r == s[..|r|]
    ensures |r| > 0 ==> !space(r[|r| - 1])
    ensures Blank(s[|r|..], space)
  {
    if |s| > 0 && space(s[|s| - 1]) then StripEnd(s[..|s| - 1], space) else s
  }

  /** `s.strip()`. */
  function Strip<T>(s: seq<T>, space: T -> bool): seq<T> {
    StripEnd(StripStart(s, space), space)
  }

  predicate Blank<T>(s: seq<T>, space: T -> bool) {
    forall i :: 0 <= i < |s| ==> space(s[i])
  }

  /** Stripping leaves nothing exactly when everything is whitespace. */
  lemma StripBlank<T>(s: seq<T>, space: T -> bool)
    ensures Strip(s, space) == [] <==> Blank(s, space)
  {
    var t := StripStart(s, space);
    assert t == s[|s| - |t|..];
  }

  /** Text without whitespace at its ends is left as it is. */
  lemma StripClean<T>(s: seq<T>, space: T -> bool)
    requires |s| > 0 && !space(s[0]) && !space(s[|s| - 1])
    ensures Strip(s, space) == s
  {
  }

  /** Leading whitespace is dropped up to the first other element. */
  lemma {:induction false} StripStartBlank<T>(pre: seq<T>, t: seq<T>, space: T -> bool)
    requires Blank(pre, space) && |t| > 0 && !space(t[0])
    ensures StripStart(pre + t, space) == t
    decreases |pre|
  {
    if |pre| > 0 {
      assert (pre + t)[1..] == pre[1..] + t;
      StripStartBlank(pre[1..], t, space);
    } else {
      assert pre + t == t;
    }
  }

  /** Trailing whitespace is dropped back to the last other element. */
  lemma {:induction false} StripEndBlank<T>(t: seq<T>, post: seq<T>, space: T -> bool)
    requires Blank(post, space) && |t| > 0 && !space(t[|t| - 1])
    ensures StripEnd(t + post, space) == t
    decreases |post|
  {
    if |post| > 0 {
      var shorter := post[..|post| - 1];
      assert (t + post)[..|t + post| - 1] == t + shorter;
      StripEndBlank(t, shorter, space);
    } else {
      assert t + post == t;
    }
  }

  /** Whitespace on both sides of a text is exactly what `strip` removes. */
  lemma {:induction false} StripAround<T>(pre: seq<T>, t: seq<T>, post: seq<T>, space: T -> bool)
    requires Blank(pre, space) && Blank(post, space)
    requires |t| > 0 && !space(t[0]) && !space(t[|t| - 1])
    ensures Strip(pre + t + post, space) == t
  {
    assert pre + t + post == pre + (t + post);
    assert (t + post)[0] == t[0];
    StripStartBlank(pre, t + post, space);
    StripEndBlank(t, post, space);
  }

  /** Every element that is not whitespace survives `strip`. */
  lemma {:induction false} StripKeeps<T>(s: seq<T>, space: T -> bool, i: int) returns (k: nat)
    requires 0 <= i < |s| && !space(s[i])
    ensures k < |Strip(s, space)| && Strip(s, space)[k] == s[i]
  {
    var a := StripStart(s, space);
    var lo := |s| - |a|;
    var t := StripEnd(a, space);
    assert forall j :: 0 <= j < lo ==> space(s[j]) by {
      forall j | 0 <= j < lo ensures space(s[j]) {
        assert s[..lo][j] == s[j];
      }
    }
    assert forall j :: lo + |t| <= j < |s| ==> space(s[j]) by {
      forall j | lo + |t| <= j < |s| ensures space(s[j]) {
        assert a[|t|..][j - lo - |t|] == s[j];
      }
    }
    assert lo <= i < lo + |t|;
    k := i - lo;
  }

  /** `strip` keeps one contiguous piece of its input, and so does any
      prefix of what it keeps. */
  lemma StripSlice<T>(s: seq<T>, space: T -> bool, k: nat) returns (lo: nat)
    requires k <= |Strip(s, space)|
    ensures lo + k <= |s| && Strip(s, space)[..k] == s[lo..lo + k]
  {
    var t := StripStart(s, space);
    lo := |s| - |t|;
    assert Strip(s, space)[..k] == t[..k];
  }

  // ---------------------------------------------------------------------------
  // in, find

  ghost predicate OccursAt<T>(s: seq<T>, sub: seq<T>, i: int) {
    0 <= i && i + |sub| <= |s| && s[i..i + |sub|] == sub
  }

  function FindFrom<T(==)>(s: seq<T>, sub: seq<T>, i: nat): (r: Option<nat>)
    requires i <= |s|
    ensures r.Some? ==> i <= r.value && OccursAt(s, sub, r.value)
    ensures r.Some? ==> forall j :: i <= j < r.value ==> !OccursAt(s, sub, j)
    ensures r.None? ==> forall j :: i <= j ==> !OccursAt(s, sub, j)
    decreases |s| - i
  {
    if i + |sub| > |s| then None
    else if s[i..i + |sub|] == sub then Some(i)
    else FindFrom(s, sub, i + 1)
  }

  /** `s.find(sub)`, with None for -1. */
  function Find<T(==)>(s: seq<T>, sub: seq<T>): Option<nat> {
    FindFrom(s, sub, 0)
  }

  /** `sub in s`. */
  predicate Contains<T(==)>(s: seq<T>, sub: seq<T>) {
    Find(s, sub).Some?
  }

  /** `s.startswith(p)`. */
  predicate StartsWith<T(==)>(s: seq<T>, p: seq<T>) {
    |p| <= |s| && s[..|p|] == p
  }

  /** `s.endswith(p)`. */
  predicate EndsWith<T(==)>(s: seq<T>, p: seq<T>) {
    |p| <= |s| && s[|s| - |p|..] == p
  }

  /** `s.split(sep, 1)[1]`; None where Python raises IndexError. */
  function After<T(==)>(s: seq<T>, sep: seq<T>): (r: Option<seq<T>>)
    ensures r.Some? <==> Contains(s, sep)
    ensures r.Some? ==> exists i :: OccursAt(s, sep, i) && r.value == s[i + |sep|..]
  {
    match Find(s, sep)
    case None => None
    case Some(i) => Some(s[i + |sep|..])
  }

  /** The first occurrence of a separator that `a` does not contain is the
      one right after `a`. */
  lemma FindAfter<T>(a: seq<T>, sep: seq<T>, b: seq<T>)
    requires forall i :: 0 <= i < |a| ==> !OccursAt(a + sep, sep, i)
    ensures Find(a + sep + b, sep) == Some(|a|)
  {
    var s, p := a + sep + b, a + sep;
    assert s[..|p|] == p;
    assert OccursAt(s, sep, |a|) by {
      assert s[|a|..|a| + |sep|] == sep;
    }
    forall i | 0 <= i < |a| ensures !OccursAt(s, sep, i) {
      assert !OccursAt(p, sep, i);
      assert s[i..i + |sep|] == p[i..i + |sep|];
    }
  }

  /** An occurrence inside a piece of a sequence is one in the sequence. */
  lemma OccursInSlice<T>(s: seq<T>, lo: nat, hi: nat, sub: seq<T>, i: int)
    requires lo <= hi <= |s| && OccursAt(s[lo..hi], sub, i)
    ensures OccursAt(s, sub, lo + i)
  {
    var t, u := s[lo..hi][i..i + |sub|], s[lo + i..lo + i + |sub|];
    assert forall k :: 0 <= k < |sub| ==> u[k] == t[k];
  }

  lemma OccursBetween<T>(a: seq<T>, sub: seq<T>, b: seq<T>)
    ensures OccursAt(a + sub + b, sub, |a|)
  {
    assert (a + sub + b)[|a|..|a| + |sub|] == sub;
  }

  /** What a piece of a sequence contains, the sequence contains. */
  lemma ContainsPiece<T>(s: seq<T>, lo: nat, hi: nat, sub: seq<T>, piece: seq<T>)
    requires lo <= hi <= |s| && piece == s[lo..hi] && Contains(piece, sub)
    ensures Contains(s, sub)
  {
    OccursInSlice(s, lo, hi, sub, Find(piece, sub).value);
  }

  /** A one-element separator occurs where that element is. */
  lemma OccursOne<T>(s: seq<T>, c: T, i: int)
    ensures OccursAt(s, [c], i) <==> 0 <= i < |s| && s[i] == c
  {
    if 0 <= i < |s| {
      assert s[i..i + 1] == [s[i]];
    }
  }

  lemma FindOne<T>(a: seq<T>, c: T, b: seq<T>)
    requires forall i :: 0 <= i < |a| ==> a[i] != c
    ensures Find(a + [c] + b, [c]) == Some(|a|)
  {
    forall i | 0 <= i < |a| ensures !OccursAt(a + [c], [c], i) {
      OccursOne(a + [c], c, i);
    }
    FindAfter(a, [c], b);
  }

  lemma FindNoneOne<T>(a: seq<T>, c: T)
    requires forall i :: 0 <= i < |a| ==> a[i] != c
    ensures Find(a, [c]) == None
  {
    if Find(a, [c]).Some? {
      OccursOne(a, c, Find(a, [c]).value);
    }
  }

  // ---------------------------------------------------------------------------
  // split, partition on one element

  /** `s.split(c)`: the pieces between the occurrences of c. */
  function Split<T(==)>(s: seq<T>, c: T): (r: seq<seq<T>>)
    ensures |r| >= 1
    decreases |s|
  {
    match Find(s, [c])
    case None => [s]
    case Some(i) => [s[..i]] + Split(s[i + 1..], c)
  }

  /** The pieces contain no separator and, joined with it, give the input back. */
  lemma {:induction false} SplitJoin<T>(s: seq<T>, c: T)
    ensures var r := Split(s, c);
      && (forall k, j :: 0 <= k < |r| && 0 <= j < |r[k]| ==> r[k][j] != c)
      && Join(r, c) == s
    decreases |s|
  {
    match Find(s, [c])
    case None =>
      forall j | 0 <= j < |s| ensures s[j] != c {
        OccursOne(s, c, j);
      }
    case Some(i) =>
      var r := Split(s, c);
      var t := s[i + 1..];
      SplitJoin(t, c);
      OccursOne(s, c, i);
      forall j | 0 <= j < i ensures s[j] != c {
        OccursOne(s, c, j);
      }
      assert r[1..] == Split(t, c);
      assert s == s[..i] + [c] + t;
  }

  /** `c.join(pieces)`. */
  function Join<T>(pieces: seq<seq<T>>, c: T): seq<T>
    requires |pieces| >= 1
  {
    if |pieces| == 1 then pieces[0] else pieces[0] + [c] + Join(pieces[1..], c)
  }

  /** Splitting a join of pieces without the separator gives the pieces. */
  lemma {:induction false} JoinSplit<T>(pieces: seq<seq<T>>, c: T)
    requires |pieces| >= 1
    requires forall k, j :: 0 <= k < |pieces| && 0 <= j < |pieces[k]| ==> pieces[k][j] != c
    ensures Split(Join(pieces, c), c) == pieces
    decreases |pieces|
  {
    var a := pieces[0];
    if |pieces| == 1 {
      FindNoneOne(a, c);
    } else {
      var b := Join(pieces[1..], c);
      FindOne(a, c, b);
      assert (a + [c] + b)[|a| + 1..] == b;
      assert (a + [c] + b)[..|a|] == a;
      JoinSplit(pieces[1..], c);
    }
  }

  /** An element of a join that is not the separator comes from a piece. */
  lemma {:induction false} JoinElement<T>(pieces: seq<seq<T>>, c: T, i: int)
    requires |pieces| >= 1 && 0 <= i < |Join(pieces, c)|
    ensures Join(pieces, c)[i] == c
      || exists k, j :: 0 <= k < |pieces| && 0 <= j < |pieces[k]| && pieces[k][j] == Join(pieces, c)[i]
    decreases |pieces|
  {
    var a := pieces[0];
    if |pieces| > 1 && i > |a| {
      var rest := Join(pieces[1..], c);
      assert Join(pieces, c)[i] == rest[i - |a| - 1];
      JoinElement(pieces[1..], c, i - |a| - 1);
      if rest[i - |a| - 1] != c {
        var k, j :| 0 <= k < |pieces[1..]| && 0 <= j < |pieces[1..][k]| && pieces[1..][k][j] == rest[i - |a| - 1];
        assert pieces[k + 1][j] == Join(pieces, c)[i];
      }
    } else if i < |a| {
      assert Join(pieces, c)[i] == pieces[0][i];
    }
  }

  /** `s.partition(c)`: the text before the first c, whether there was one,
      and the text after it. */
  function Partition<T(==)>(s: seq<T>, c: T): (r: (seq<T>, bool, seq<T>))
    ensures r.1 ==> s == r.0 + [c] + r.2
    ensures !r.1 ==> r.0 == s && r.2 == []
    ensures forall i :: 0 <= i < |r.0| ==> r.0[i] != c
  {
    match Find(s, [c])
    case None =>
      assert forall i :: 0 <= i < |s| ==> s[i] != c by {
        forall i | 0 <= i < |s| ensures s[i] != c {
          OccursOne(s, c, i);
        }
      }
      (s, false, [])
    case Some(i) =>
      assert s == s[..i] + [c] + s[i + 1..] by {
        OccursOne(s, c, i);
      }
      assert forall j :: 0 <= j < i ==> s[j] != c by {
        forall j | 0 <= j < i ensures s[j] != c {
          OccursOne(s, c, j);
        }
      }
      (s[..i], true, s[i + 1..])
  }

  /** Partitioning at the first separator: everything before it, and
      everything after it, separators included. */
  lemma PartitionAt<T>(a: seq<T>, c: T, b: seq<T>)
    requires forall i :: 0 <= i < |a| ==> a[i] != c
    ensures Partition(a + [c] + b, c) == (a, true, b)
  {
    FindOne(a, c, b);
    var s := a + [c] + b;
    assert s[..|a|] == a && s[|a| + 1..] == b;
  }

  /** Without the separator, partition gives the whole text and nothing after. */
  lemma PartitionNone<T>(a: seq<T>, c: T)
    requires forall i :: 0 <= i < |a| ==> a[i] != c
    ensures Partition(a, c) == (a, false, [])
  {
    FindNoneOne(a, c);
  }
}
