/** The two passes the parser runs once every activity is known: resolving
    successor names to activity indices, and deriving each activity's
    predecessors from the successor lists. */
module Precedence {
  import opened Wrappers

  /** Every index in `s` points into a list of `n` activities. */
  predicate InRange(s: seq<int>, n: nat) {
    forall k :: 0 <= k < |s| ==> 0 <= s[k] < n
  }

  predicate AllInRange(lists: seq<seq<int>>, n: nat) {
    forall i :: 0 <= i < |lists| ==> InRange(lists[i], n)
  }

  predicate Sorted(s: seq<int>) {
    forall a, b :: 0 <= a < b < |s| ==> s[a] <= s[b]
  }

  /** How often `v` occurs in `s`. */
  function Count(s: seq<int>, v: int): nat {
    multiset(s)[v]
  }

  /** `k` is the first token that is not a key of `ids`. */
  predicate FirstMissing(ids: map<string, int>, tokens: seq<string>, k: int) {
    && 0 <= k < |tokens|
    && tokens[k] !in ids
    && forall k' :: 0 <= k' < k ==> tokens[k'] in ids
  }

  /** `[id2idx[t] for t in tokens]`: every token is looked up verbatim, and
      the first one that is not a key is reported. */
  function ResolveList(ids: map<string, int>, tokens: seq<string>): (r: Result<seq<int>, string>)
    ensures r.Success? ==> |r.value| == |tokens|
  {
    if tokens == [] then Success([])
    else if tokens[0] !in ids then Failure(tokens[0])
    else
      match ResolveList(ids, tokens[1..])
      case Failure(e) => Failure(e)
      case Success(rest) => Success([ids[tokens[0]]] + rest)
  }

  /** A list resolves exactly when every token is a key; the result holds
      each token's index, in order, and a failure names the first token that
      is not a key. */
  lemma {:induction false} ResolveListMeaning(ids: map<string, int>, tokens: seq<string>)
    ensures var r := ResolveList(ids, tokens);
            && (r.Success? <==> forall k :: 0 <= k < |tokens| ==> tokens[k] in ids)
            && (r.Success? ==> forall k :: 0 <= k < |tokens| ==> tokens[k] in ids && r.value[k] == ids[tokens[k]])
            && (r.Failure? ==> exists k :: FirstMissing(ids, tokens, k) && r.error == tokens[k])
  {
    if tokens == [] {
    } else if tokens[0] !in ids {
      assert FirstMissing(ids, tokens, 0);
    } else {
      var rest := tokens[1..];
      ResolveListMeaning(ids, rest);
      assert forall k :: 1 <= k < |tokens| ==> tokens[k] == rest[k - 1];
      if ResolveList(ids, rest).Failure? {
        var k :| FirstMissing(ids, rest, k) && ResolveList(ids, rest).error == rest[k];
        assert FirstMissing(ids, tokens, k + 1);
      }
    }
  }

  /** The `k`-th token of a resolved list is a key, and its index is the
      `k`-th entry of the result. */
  lemma ResolveListAt(ids: map<string, int>, tokens: seq<string>, k: nat)
    requires ResolveList(ids, tokens).Success? && k < |tokens|
    ensures tokens[k] in ids && ResolveList(ids, tokens).value[k] == ids[tokens[k]]
  {
    ResolveListMeaning(ids, tokens);
  }

  /** `i` is the first list holding a token that is not a key of `ids`. */
  predicate FirstUnresolved(ids: map<string, int>, lists: seq<seq<string>>, i: int) {
    && 0 <= i < |lists|
    && ResolveList(ids, lists[i]).Failure?
    && forall i' :: 0 <= i' < i ==> ResolveList(ids, lists[i']).Success?
  }

  /** The resolution loop over all activities, in order: the first activity
      holding a missing token decides the error. */
  function ResolveAll(ids: map<string, int>, lists: seq<seq<string>>): (r: Result<seq<seq<int>>, string>)
    ensures r.Success? ==> |r.value| == |lists|
  {
    if lists == [] then Success([])
    else
      match ResolveList(ids, lists[0])
      case Failure(e) => Failure(e)
      case Success(first) =>
        match ResolveAll(ids, lists[1..])
        case Failure(e) => Failure(e)
        case Success(rest) => Success([first] + rest)
  }

  /** All lists resolve exactly when each one does, and then the `i`-th
      result is the resolution of the `i`-th list. */
  lemma {:induction false} ResolveAllMeaning(ids: map<string, int>, lists: seq<seq<string>>)
    ensures var r := ResolveAll(ids, lists);
            && (r.Success? <==> forall i :: 0 <= i < |lists| ==> ResolveList(ids, lists[i]).Success?)
            && (r.Success? ==> forall i :: 0 <= i < |lists| ==> ResolveList(ids, lists[i]) == Success(r.value[i]))
  {
    if lists != [] {
      var rest := lists[1..];
      ResolveAllMeaning(ids, rest);
      assert forall i :: 1 <= i < |lists| ==> lists[i] == rest[i - 1];
    }
  }

  lemma ResolveAllAt(ids: map<string, int>, lists: seq<seq<string>>, i: nat)
    requires ResolveAll(ids, lists).Success? && i < |lists|
    ensures ResolveList(ids, lists[i]) == Success(ResolveAll(ids, lists).value[i])
  {
    ResolveAllMeaning(ids, lists);
  }

  /** A failed resolution reports the error of the first list that fails. */
  lemma {:induction false} ResolveAllFailure(ids: map<string, int>, lists: seq<seq<string>>)
    requires ResolveAll(ids, lists).Failure?
    ensures exists i :: FirstUnresolved(ids, lists, i) && ResolveList(ids, lists[i]).error == ResolveAll(ids, lists).error
  {
    if ResolveList(ids, lists[0]).Failure? {
      assert FirstUnresolved(ids, lists, 0);
    } else {
      var rest := lists[1..];
      ResolveAllFailure(ids, rest);
      var i :| FirstUnresolved(ids, rest, i) && ResolveList(ids, rest[i]).error == ResolveAll(ids, rest).error;
      assert forall i' :: 1 <= i' < i + 1 ==> lists[i'] == rest[i' - 1];
      assert FirstUnresolved(ids, lists, i + 1);
    }
  }

  /** When every value of the map is an index below `n`, so is every
      resolved successor. */
  lemma ResolvedInRange(ids: map<string, int>, lists: seq<seq<string>>, n: nat)
    requires forall t :: t in ids ==> 0 <= ids[t] < n
    requires ResolveAll(ids, lists).Success?
    ensures AllInRange(ResolveAll(ids, lists).value, n)
  {
    var r := ResolveAll(ids, lists).value;
    forall i | 0 <= i < |r|
      ensures InRange(r[i], n)
    {
      ResolveAllAt(ids, lists, i);
      forall k | 0 <= k < |r[i]|
        ensures 0 <= r[i][k] < n
      {
        ResolveListAt(ids, lists[i], k);
      }
    }
  }

  /** `n` copies of `v`. */
  function Repeat(v: int, n: nat): (r: seq<int>)
    ensures |r| == n
  {
    if n == 0 then [] else [v] + Repeat(v, n - 1)
  }

  lemma {:induction false} RepeatCount(v: int, n: nat, w: int)
    ensures Count(Repeat(v, n), w) == if w == v then n else 0
  {
    if n > 0 {
      RepeatCount(v, n - 1, w);
      assert multiset([v] + Repeat(v, n - 1)) == multiset([v]) + multiset(Repeat(v, n - 1));
    }
  }

  lemma {:induction false} RepeatElements(v: int, n: nat)
    ensures forall k :: 0 <= k < n ==> Repeat(v, n)[k] == v
  {
    if n > 0 {
      RepeatElements(v, n - 1);
      assert forall k :: 1 <= k < n ==> Repeat(v, n)[k] == Repeat(v, n - 1)[k - 1];
    }
  }

  /** `for succ in successors: predecessors[succ].append(i)`, one activity's
      contribution to the predecessor lists. */
  function AddEdges(preds: seq<seq<int>>, i: int, succs: seq<int>): (r: seq<seq<int>>)
    requires InRange(succs, |preds|)
    ensures |r| == |preds|
    decreases |succs|
  {
    if succs == [] then preds
    else
      assert InRange(succs[1..], |preds|) by {
        assert forall k :: 0 <= k < |succs| - 1 ==> succs[1..][k] == succs[k + 1];
      }
      AddEdges(preds[succs[0] := preds[succs[0]] + [i]], i, succs[1..])
  }

  /** The predecessor loop from activity `i` on. */
  function DeriveFrom(succs: seq<seq<int>>, i: nat, preds: seq<seq<int>>): (r: seq<seq<int>>)
    requires i <= |succs| && AllInRange(succs, |preds|)
    ensures |r| == |preds|
    decreases |succs| - i
  {
    if i == |succs| then preds
    else DeriveFrom(succs, i + 1, AddEdges(preds, i, succs[i]))
  }

  /** The predecessor lists of activities whose successors are `succs`,
      each starting out empty, filled in activity order. */
  function Derive(succs: seq<seq<int>>): (preds: seq<seq<int>>)
    requires AllInRange(succs, |succs|)
    ensures |preds| == |succs|
  {
    DeriveFrom(succs, 0, seq(|succs|, _ => []))
  }

  /** The reference: the predecessors of `j` among the activities below `n`,
      each activity `i` as often as `j` occurs among its successors, in
      ascending order of `i`. */
  function PredsUpTo(succs: seq<seq<int>>, n: nat, j: int): seq<int>
    requires n <= |succs|
  {
    if n == 0 then [] else PredsUpTo(succs, n - 1, j) + Repeat(n - 1, Count(succs[n - 1], j))
  }

  /** One activity's pass appends `i` to list `j` once per occurrence of `j`
      among its successors. */
  lemma {:induction false} AddEdgesAppends(preds: seq<seq<int>>, i: int, succs: seq<int>, j: int)
    requires InRange(succs, |preds|) && 0 <= j < |preds|
    ensures AddEdges(preds, i, succs)[j] == preds[j] + Repeat(i, Count(succs, j))
    decreases |succs|
  {
    if succs != [] {
      var s := succs[0];
      var next := preds[s := preds[s] + [i]];
      assert InRange(succs[1..], |preds|) by {
        assert forall k :: 0 <= k < |succs| - 1 ==> succs[1..][k] == succs[k + 1];
      }
      AddEdgesAppends(next, i, succs[1..], j);
      assert succs == [s] + succs[1..];
      assert Count(succs, j) == (if s == j then 1 else 0) + Count(succs[1..], j) by {
        assert multiset(succs) == multiset([s]) + multiset(succs[1..]);
      }
      if s == j {
        assert Repeat(i, Count(succs, j)) == [i] + Repeat(i, Count(succs[1..], j));
      }
    }
  }

  /** The loop from `i` on, started from the reference lists for the
      activities below `i`, ends with the reference lists for all. */
  lemma {:induction false} DeriveFromMeaning(succs: seq<seq<int>>, i: nat, preds: seq<seq<int>>, j: int)
    requires i <= |succs| && AllInRange(succs, |preds|) && 0 <= j < |preds|
    requires forall j' :: 0 <= j' < |preds| ==> preds[j'] == PredsUpTo(succs, i, j')
    ensures DeriveFrom(succs, i, preds)[j] == PredsUpTo(succs, |succs|, j)
    decreases |succs| - i
  {
    if i < |succs| {
      var next := AddEdges(preds, i, succs[i]);
      forall j' | 0 <= j' < |preds|
        ensures next[j'] == PredsUpTo(succs, i + 1, j')
      {
        AddEdgesAppends(preds, i, succs[i], j');
      }
      DeriveFromMeaning(succs, i + 1, next, j);
    }
  }

  /** The derived lists are the reference lists. */
  lemma DeriveMeaning(succs: seq<seq<int>>, j: int)
    requires AllInRange(succs, |succs|) && 0 <= j < |succs|
    ensures Derive(succs)[j] == PredsUpTo(succs, |succs|, j)
  {
    DeriveFromMeaning(succs, 0, seq(|succs|, _ => []), j);
  }

  lemma {:induction false} PredsUpToCount(succs: seq<seq<int>>, n: nat, j: int, i: int)
    requires n <= |succs|
    ensures Count(PredsUpTo(succs, n, j), i) == if 0 <= i < n then Count(succs[i], j) else 0
  {
    if n > 0 {
      PredsUpToCount(succs, n - 1, j, i);
      RepeatCount(n - 1, Count(succs[n - 1], j), i);
      var p := PredsUpTo(succs, n - 1, j);
      var r := Repeat(n - 1, Count(succs[n - 1], j));
      assert multiset(p + r) == multiset(p) + multiset(r);
    }
  }

  lemma {:induction false} PredsUpToSorted(succs: seq<seq<int>>, n: nat, j: int)
    requires n <= |succs|
    ensures Sorted(PredsUpTo(succs, n, j))
    ensures InRange(PredsUpTo(succs, n, j), n)
  {
    if n > 0 {
      PredsUpToSorted(succs, n - 1, j);
      var p := PredsUpTo(succs, n - 1, j);
      var r := Repeat(n - 1, Count(succs[n - 1], j));
      RepeatElements(n - 1, Count(succs[n - 1], j));
      var s := p + r;
      assert forall k :: |p| <= k < |s| ==> s[k] == r[k - |p|];
      assert forall k :: 0 <= k < |p| ==> s[k] == p[k];
    }
  }

  /** Successors and predecessors are inverse relations with multiplicity:
      `i` appears in the predecessors of `j` exactly as often as `j` appears
      among the successors of `i`. Every predecessor list is in ascending
      order and holds only activity indices. */
  lemma DeriveInverse(succs: seq<seq<int>>)
    requires AllInRange(succs, |succs|)
    ensures forall i, j :: 0 <= i < |succs| && 0 <= j < |succs| ==>
              Count(Derive(succs)[j], i) == Count(succs[i], j)
    ensures forall j :: 0 <= j < |succs| ==> Sorted(Derive(succs)[j]) && InRange(Derive(succs)[j], |succs|)
  {
    forall i, j | 0 <= i < |succs| && 0 <= j < |succs|
      ensures Count(Derive(succs)[j], i) == Count(succs[i], j)
    {
      DeriveMeaning(succs, j);
      PredsUpToCount(succs, |succs|, j, i);
    }
    forall j | 0 <= j < |succs|
      ensures Sorted(Derive(succs)[j]) && InRange(Derive(succs)[j], |succs|)
    {
      DeriveMeaning(succs, j);
      PredsUpToSorted(succs, |succs|, j);
    }
  }

  /** Nothing but activity indices reaches a predecessor list: an index
      outside the activities never appears. */
  lemma DeriveOnlyIndices(succs: seq<seq<int>>, j: int, v: int)
    requires AllInRange(succs, |succs|) && 0 <= j < |succs|
    requires v < 0 || v >= |succs|
    ensures Count(Derive(succs)[j], v) == 0
  {
    DeriveMeaning(succs, j);
    PredsUpToCount(succs, |succs|, j, v);
  }
}
