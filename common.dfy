/** Option and Result, and the sequence operations the server and the client
    share: JavaScript's `Array.prototype.filter` and the ordering of table rows. */
module Common {

  datatype Option<T> = None | Some(value: T)

  datatype Result<T, E> = Ok(value: T) | Err(error: E)

  /** The elements of `s` that `keep` accepts, in their original order. */
  function Filter<T(!new)>(s: seq<T>, keep: T -> bool): (r: seq<T>)
    ensures |r| <= |s|
    ensures forall x :: x in r <==> x in s && keep(x)
  {
    if s == [] then [] else (if keep(s[0]) then [s[0]] else []) + Filter(s[1..], keep)
  }

  /** Filtering a concatenation filters each part: the kept elements keep their relative order. */
  lemma {:induction false} FilterConcat<T(!new)>(a: seq<T>, b: seq<T>, keep: T -> bool)
    ensures Filter(a + b, keep) == Filter(a, keep) + Filter(b, keep)
  {
    if a == [] {
      assert a + b == b;
    } else {
      assert (a + b)[0] == a[0];
      assert (a + b)[1..] == a[1..] + b;
      FilterConcat(a[1..], b, keep);
    }
  }

  /** When nothing is rejected, filtering changes nothing. */
  lemma {:induction false} FilterKeepsAll<T(!new)>(s: seq<T>, keep: T -> bool)
    requires forall x :: x in s ==> keep(x)
    ensures Filter(s, keep) == s
  {
    if s != [] {
      assert s[0] in s;
      assert forall x :: x in s[1..] ==> x in s;
      FilterKeepsAll(s[1..], keep);
    }
  }

  /** Filtering twice with the same test is filtering once. */
  lemma FilterIdempotent<T(!new)>(s: seq<T>, keep: T -> bool)
    ensures Filter(Filter(s, keep), keep) == Filter(s, keep)
  {
    FilterKeepsAll(Filter(s, keep), keep);
  }

  /** A first filter that accepts everything the second one accepts makes no difference. */
  lemma {:induction false} FilterAbsorbs<T(!new)>(s: seq<T>, wide: T -> bool, narrow: T -> bool)
    requires forall x :: x in s && narrow(x) ==> wide(x)
    ensures Filter(Filter(s, wide), narrow) == Filter(s, narrow)
  {
    if s != [] {
      assert s[0] in s;
      assert forall x :: x in s[1..] ==> x in s;
      FilterAbsorbs(s[1..], wide, narrow);
      var head := if wide(s[0]) then [s[0]] else [];
      FilterConcat(head, Filter(s[1..], wide), narrow);
      if wide(s[0]) {
        assert head[1..] == [];
      }
    }
  }

  /** Two filters may run in either order. */
  lemma {:induction false} FilterCommutes<T(!new)>(s: seq<T>, f: T -> bool, g: T -> bool)
    ensures Filter(Filter(s, f), g) == Filter(Filter(s, g), f)
  {
    if s != [] {
      FilterCommutes(s[1..], f, g);
      var hf := if f(s[0]) then [s[0]] else [];
      var hg := if g(s[0]) then [s[0]] else [];
      FilterConcat(hf, Filter(s[1..], f), g);
      FilterConcat(hg, Filter(s[1..], g), f);
      if f(s[0]) {
        assert hf[1..] == [];
      }
      if g(s[0]) {
        assert hg[1..] == [];
      }
    }
  }

  /** Rows whose key strictly increases along the sequence: a rowid table in scan order. */
  predicate StrictlyIncreasing<T(!new)>(s: seq<T>, key: T -> int)
  {
    forall i, j :: 0 <= i < j < |s| ==> key(s[i]) < key(s[j])
  }

  /** Filtering keeps a table in increasing key order. */
  lemma {:induction false} FilterKeepsIncreasing<T(!new)>(s: seq<T>, keep: T -> bool, key: T -> int)
    requires StrictlyIncreasing(s, key)
    ensures StrictlyIncreasing(Filter(s, keep), key)
  {
    if s != [] {
      assert StrictlyIncreasing(s[1..], key) by {
        forall i, j | 0 <= i < j < |s[1..]| ensures key(s[1..][i]) < key(s[1..][j]) {
          assert s[1..][i] == s[i + 1] && s[1..][j] == s[j + 1];
        }
      }
      FilterKeepsIncreasing(s[1..], keep, key);
      var rest := Filter(s[1..], keep);
      forall x | x in rest ensures key(s[0]) < key(x) {
        var k :| 0 <= k < |s[1..]| && s[1..][k] == x;
        assert s[k + 1] == x;
      }
    }
  }

  /** `idx` names, in increasing order, the positions in `s` that `r` was
      taken from: each is accepted by `keep`, and every accepted position
      of `s` is among them. */
  ghost predicate Picks<T>(s: seq<T>, keep: T -> bool, r: seq<T>, idx: seq<int>)
  {
    && |idx| == |r|
    && (forall k :: 0 <= k < |idx| ==> 0 <= idx[k] < |s| && r[k] == s[idx[k]] && keep(s[idx[k]]))
    && (forall k, l :: 0 <= k < l < |idx| ==> idx[k] < idx[l])
    && (forall i :: 0 <= i < |s| && keep(s[i]) ==> i in idx)
  }

  /** `r` is the subsequence of `s` made of the elements `keep` accepts,
      in their order in `s`, each occurrence kept once. */
  ghost predicate KeptInOrder<T>(s: seq<T>, keep: T -> bool, r: seq<T>)
  {
    exists idx :: Picks(s, keep, r, idx)
  }

  /** Positions in `t` seen as positions in `[x] + t`. */
  function Shift(idx: seq<int>): (r: seq<int>)
    ensures |r| == |idx| && forall k :: 0 <= k < |idx| ==> r[k] == idx[k] + 1
  {
    seq(|idx|, k requires 0 <= k < |idx| => idx[k] + 1)
  }

  /** Picking from `t` extends to picking from `[x] + t`. */
  lemma PicksCons<T>(x: T, t: seq<T>, keep: T -> bool, rt: seq<T>, rest: seq<int>)
    requires Picks(t, keep, rt, rest)
    ensures Picks([x] + t, keep, (if keep(x) then [x] else []) + rt, (if keep(x) then [0] else []) + Shift(rest))
  {
    var head: seq<int> := if keep(x) then [0] else [];
    ConsPicksElements(x, t, keep, rt, rest, head);
    ConsPicksInOrder(rest, head);
    ConsPicksEvery(x, t, keep, rest, head);
  }

  lemma ConsPicksElements<T>(x: T, t: seq<T>, keep: T -> bool, rt: seq<T>, rest: seq<int>, head: seq<int>)
    requires Picks(t, keep, rt, rest)
    requires head == if keep(x) then [0] else []
    ensures var s, idx, r := [x] + t, head + Shift(rest), (if keep(x) then [x] else []) + rt;
      forall k :: 0 <= k < |idx| ==> 0 <= idx[k] < |s| && r[k] == s[idx[k]] && keep(s[idx[k]])
  {
    var s, idx, r := [x] + t, head + Shift(rest), (if keep(x) then [x] else []) + rt;
    forall k | 0 <= k < |idx| ensures 0 <= idx[k] < |s| && r[k] == s[idx[k]] && keep(s[idx[k]]) {
      if k >= |head| {
        var j := k - |head|;
        assert idx[k] == rest[j] + 1 && r[k] == rt[j];
        assert s[rest[j] + 1] == t[rest[j]];
      }
    }
  }

  lemma ConsPicksInOrder(rest: seq<int>, head: seq<int>)
    requires forall k, l :: 0 <= k < l < |rest| ==> rest[k] < rest[l]
    requires forall k :: 0 <= k < |rest| ==> 0 <= rest[k]
    requires head == [] || head == [0]
    ensures var idx := head + Shift(rest); forall k, l :: 0 <= k < l < |idx| ==> idx[k] < idx[l]
  {
    var idx := head + Shift(rest);
    forall k, l | 0 <= k < l < |idx| ensures idx[k] < idx[l] {
      if k >= |head| {
        assert idx[k] == rest[k - |head|] + 1 && idx[l] == rest[l - |head|] + 1;
      } else {
        assert idx[l] == rest[l - 1] + 1;
      }
    }
  }

  lemma ConsPicksEvery<T>(x: T, t: seq<T>, keep: T -> bool, rest: seq<int>, head: seq<int>)
    requires forall i :: 0 <= i < |t| && keep(t[i]) ==> i in rest
    requires head == if keep(x) then [0] else []
    ensures var s, idx := [x] + t, head + Shift(rest);
      forall i :: 0 <= i < |s| && keep(s[i]) ==> i in idx
  {
    var s, idx := [x] + t, head + Shift(rest);
    forall i | 0 <= i < |s| && keep(s[i]) ensures i in idx {
      if i == 0 {
        assert idx[0] == 0;
      } else {
        assert t[i - 1] == s[i];
        var j :| 0 <= j < |rest| && rest[j] == i - 1;
        assert idx[|head| + j] == i;
      }
    }
  }

  /** `Filter` keeps exactly the accepted elements, in order. */
  lemma {:induction false} FilterKeepsOrder<T(!new)>(s: seq<T>, keep: T -> bool)
    ensures KeptInOrder(s, keep, Filter(s, keep))
  {
    if s == [] {
      assert Picks(s, keep, [], []);
    } else {
      var t := s[1..];
      FilterKeepsOrder(t, keep);
      var rest :| Picks(t, keep, Filter(t, keep), rest);
      PicksCons(s[0], t, keep, Filter(t, keep), rest);
      assert [s[0]] + t == s;
    }
  }
}
