/** Order-preserving selection, the list comprehension `[x for x in s if f(x)]`
    that the query filters and the device, tag and day selections all are. */
module Seqs {

  function Filter<T>(s: seq<T>, f: T -> bool): (r: seq<T>)
    ensures |r| <= |s|
    ensures forall i :: 0 <= i < |r| ==> f(r[i])
  {
    if |s| == 0 then [] else (if f(s[0]) then [s[0]] else []) + Filter(s[1..], f)
  }

  /** Filtering distributes over concatenation; with the one-element cases
      this pins `Filter` down as the in-order selection. */
  lemma {:induction false} FilterAppend<T>(a: seq<T>, b: seq<T>, f: T -> bool)
    ensures Filter(a + b, f) == Filter(a, f) + Filter(b, f)
  {
    if |a| == 0 {
      assert a + b == b;
    } else {
      assert (a + b)[1..] == a[1..] + b;
      FilterAppend(a[1..], b, f);
    }
  }

  /** An element is kept exactly when it is in the input and passes. */
  lemma {:induction false} FilterMember<T>(s: seq<T>, f: T -> bool, x: T)
    ensures x in Filter(s, f) <==> x in s && f(x)
  {
    if |s| > 0 {
      FilterMember(s[1..], f, x);
      assert s == [s[0]] + s[1..];
    }
  }

  /** Nothing is dropped when everything passes. */
  lemma {:induction false} FilterAll<T>(s: seq<T>, f: T -> bool)
    requires forall i :: 0 <= i < |s| ==> f(s[i])
    ensures Filter(s, f) == s
  {
    if |s| > 0 {
      FilterAll(s[1..], f);
    }
  }

  /** Everything is dropped when nothing passes. */
  lemma {:induction false} FilterNone<T>(s: seq<T>, f: T -> bool)
    requires forall i :: 0 <= i < |s| ==> !f(s[i])
    ensures Filter(s, f) == []
  {
    if |s| > 0 {
      FilterNone(s[1..], f);
    }
  }

  /** Filtering first by a weaker condition changes nothing. */
  lemma {:induction false} FilterSubsumed<T>(s: seq<T>, f: T -> bool, g: T -> bool)
    requires forall x :: g(x) ==> f(x)
    ensures Filter(Filter(s, f), g) == Filter(s, g)
  {
    if |s| > 0 {
      var head := if f(s[0]) then [s[0]] else [];
      FilterSubsumed(s[1..], f, g);
      FilterAppend(head, Filter(s[1..], f), g);
      if f(s[0]) {
        assert Filter(head, g) == (if g(s[0]) then [s[0]] else []) + Filter(head[1..], g);
      }
    }
  }

  function Count<T>(s: seq<T>, f: T -> bool): nat {
    if |s| == 0 then 0 else (if f(s[0]) then 1 else 0) + Count(s[1..], f)
  }

  lemma {:induction false} FilterCount<T>(s: seq<T>, f: T -> bool)
    ensures |Filter(s, f)| == Count(s, f)
  {
    if |s| > 0 {
      FilterCount(s[1..], f);
    }
  }

  function Concat<T>(ss: seq<seq<T>>): seq<T> {
    if |ss| == 0 then [] else ss[0] + Concat(ss[1..])
  }

  lemma {:induction false} ConcatAppend<T>(a: seq<seq<T>>, b: seq<seq<T>>)
    ensures Concat(a + b) == Concat(a) + Concat(b)
  {
    if |a| == 0 {
      assert a + b == b;
    } else {
      assert (a + b)[1..] == a[1..] + b;
      ConcatAppend(a[1..], b);
    }
  }
}
