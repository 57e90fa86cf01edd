/** Swift's `compactMap`, `filter` and `map` over arrays, which every
    `EntityQuery.entities(for:)` of the widgets is built from. */
module EntityQueries {
  import opened Wrappers

  /** `s.compactMap(f)`: apply `f` to each element in order and keep the non-nil results. */
  function CompactMap<A, B>(s: seq<A>, f: A -> Option<B>): (r: seq<B>)
    ensures |r| <= |s|
  {
    if s == [] then []
    else
      var rest := CompactMap(s[1..], f);
      match f(s[0])
      case Some(b) => [b] + rest
      case None => rest
  }

  /** `s.filter(p)` */
  function Filter<A>(s: seq<A>, p: A -> bool): (r: seq<A>)
    ensures |r| <= |s|
  {
    if s == [] then []
    else if p(s[0]) then [s[0]] + Filter(s[1..], p)
    else Filter(s[1..], p)
  }

  /** `s.map(f)` */
  function MapSeq<A, B>(s: seq<A>, f: A -> B): (r: seq<B>)
    ensures |r| == |s|
    ensures forall i :: 0 <= i < |s| ==> r[i] == f(s[i])
  {
    if s == [] then [] else [f(s[0])] + MapSeq(s[1..], f)
  }

  /** `compactMap` distributes over concatenation. */
  lemma {:induction false} CompactMapAppend<A, B>(s: seq<A>, t: seq<A>, f: A -> Option<B>)
    ensures CompactMap(s + t, f) == CompactMap(s, f) + CompactMap(t, f)
  {
    if s == [] {
      assert s + t == t;
    } else {
      assert (s + t)[1..] == s[1..] + t;
      CompactMapAppend(s[1..], t, f);
    }
  }

  /** Every result comes from some element of the input. */
  lemma {:induction false} CompactMapSound<A, B>(s: seq<A>, f: A -> Option<B>, y: B)
    requires y in CompactMap(s, f)
    ensures exists i :: 0 <= i < |s| && f(s[i]) == Some(y)
  {
    if f(s[0]) != Some(y) {
      CompactMapSound(s[1..], f, y);
      var i :| 0 <= i < |s[1..]| && f(s[1..][i]) == Some(y);
      assert f(s[i + 1]) == Some(y);
    }
  }

  /** When `f` never returns nil, `compactMap` is a plain `map`. */
  lemma {:induction false} CompactMapTotal<A, B>(s: seq<A>, f: A -> Option<B>)
    requires forall i :: 0 <= i < |s| ==> f(s[i]).Some?
    ensures |CompactMap(s, f)| == |s|
    ensures forall i :: 0 <= i < |s| ==> CompactMap(s, f)[i] == f(s[i]).value
  {
    if s != [] {
      CompactMapTotal(s[1..], f);
    }
  }

  /** If `f` succeeds exactly on the elements satisfying `p`, and `key` recovers
      the element a result was made from, then the keys of the results are the
      elements satisfying `p`, in their input order. */
  lemma {:induction false} CompactMapKeys<A, B>(s: seq<A>, f: A -> Option<B>, key: B -> A, p: A -> bool)
    requires forall x :: f(x).Some? <==> p(x)
    requires forall x :: f(x).Some? ==> key(f(x).value) == x
    ensures MapSeq(CompactMap(s, f), key) == Filter(s, p)
  {
    if s != [] {
      CompactMapKeys(s[1..], f, key, p);
    }
  }
}
