/**
 The compile-time half of specialisation: from the parameters of a function and the arguments given
 to `easy::jit`, the parameter list of the specialised function. Each step mirrors one instantiation
 of the template recursion; a rejected mapping is a failed static assertion.
 */
module Placeholders {
  import opened JitContext
  import opened Wrappers

  datatype StaticError =
    | TooManyArguments      // more arguments than parameters
    | OutsideMaximum        // a placeholder beyond the largest one
    | Unbound               // the arguments ran out before all placeholders were seen
    | WrongResultSize
    | VoidInResult

  datatype Mapping<+T> = Accepted(params: seq<T>) | Rejected(error: StaticError)

  function DiscardOptions(al: seq<JitArg>): seq<JitArg> {
    if al == [] then []
    else if IsOption(al[0]) then DiscardOptions(al[1..])
    else [al[0]] + DiscardOptions(al[1..])
  }

  function MaxPlaceholder(al: seq<JitArg>, max: nat): nat {
    if al == [] then max
    else MaxPlaceholder(al[1..], if PlaceholderNumber(al[0]) > max then PlaceholderNumber(al[0]) else max)
  }

  function InitList<T>(n: nat): seq<Option<T>> {
    seq(n, _ => None)
  }

  predicate HasVoid<T(==)>(result: seq<Option<T>>) {
    exists k :: 0 <= k < |result| && result[k] == None
  }

  function Values<T>(result: seq<Option<T>>): (values: seq<T>)
    requires forall k :: 0 <= k < |result| ==> result[k].Some?
    ensures |values| == |result| && forall k :: 0 <= k < |result| ==> values[k] == result[k].value
  {
    seq(|result|, k requires 0 <= k < |result| => result[k].value)
  }

  /** One instantiation of the mapping helper: `seen` holds the placeholders parsed so far. */
  function Helper<T(==)>(pl: seq<T>, al: seq<JitArg>, result: seq<Option<T>>, seen: seq<JitArg>, n: nat): Mapping<T>
    decreases |al|
  {
    if |seen| == n then
      if |result| != n then Rejected(WrongResultSize)
      else if HasVoid(result) then Rejected(VoidInResult)
      else Accepted(Values(result))
    else if al == [] then Rejected(Unbound)
    else
      var parse := IsPlaceholder(al[0]) && al[0] !in seen;
      var resultIdx := if parse then PlaceholderNumber(al[0]) - 1 else 0;
      if |pl| < |al| then Rejected(TooManyArguments)
      else if resultIdx >= |result| then Rejected(OutsideMaximum)
      else
        var argIdx := |pl| - |al|;
        Helper(pl, al[1..],
               if parse then result[resultIdx := Some(pl[argIdx])] else result,
               if parse then seen + [al[0]] else seen, n)
  }

  function MapPlaceholders<T(==)>(pl: seq<T>, al: seq<JitArg>): Mapping<T> {
    var n := MaxPlaceholder(al, 0);
    Helper(pl, al, InitList<T>(n), [], n)
  }

  function NewParameterList<T(==)>(pl: seq<T>, al: seq<JitArg>): Mapping<T> {
    MapPlaceholders(pl, DiscardOptions(al))
  }

  /** Options after the arguments do not reach the mapping. */
  lemma {:induction false} OptionsDiscarded(al: seq<JitArg>, n: nat)
    requires n <= |al|
    requires forall i :: 0 <= i < n ==> !IsOption(al[i])
    requires forall i :: n <= i < |al| ==> IsOption(al[i])
    ensures DiscardOptions(al) == al[..n]
  {
    if n > 0 {
      OptionsDiscarded(al[1..], n - 1);
      assert al[..n] == [al[0]] + al[1..][..n - 1];
    } else if al != [] {
      OptionsDiscarded(al[1..], 0);
    }
  }

  // ----- what the mapping means -----

  ghost predicate Uses(al: seq<JitArg>, k: nat) {
    exists a :: a in al && PlaceholderNumber(a) == k
  }

  /** All of 1..n are used. */
  ghost predicate Covers(al: seq<JitArg>, n: nat) {
    forall k :: 1 <= k <= n ==> Uses(al, k)
  }

  /** Some placeholder is written with two different types. */
  ghost predicate Respelled(al: seq<JitArg>) {
    exists a, b :: a in al && b in al && IsPlaceholder(a) && a != b && PlaceholderNumber(a) == PlaceholderNumber(b)
  }

  /** Argument `i` is the first use of placeholder `k`. */
  predicate IsFirstUse(al: seq<JitArg>, k: nat, i: nat) {
    && i < |al|
    && PlaceholderNumber(al[i]) == k
    && forall j :: 0 <= j < i ==> PlaceholderNumber(al[j]) != k
  }

  /** A placeholder that is used has a first use. */
  lemma {:induction false} FirstUseExists(al: seq<JitArg>, k: nat) returns (i: nat)
    requires Uses(al, k)
    ensures IsFirstUse(al, k, i)
  {
    if PlaceholderNumber(al[0]) == k {
      i := 0;
    } else {
      var a :| a in al && PlaceholderNumber(a) == k;
      assert a in al[1..];
      var i' := FirstUseExists(al[1..], k);
      i := i' + 1;
      forall j | 0 <= j < i ensures PlaceholderNumber(al[j]) != k {
        assert j > 0 ==> al[j] == al[1..][j - 1];
      }
    }
  }

  lemma {:induction false} MaxIsMax(al: seq<JitArg>, max: nat)
    ensures max <= MaxPlaceholder(al, max)
    ensures forall i :: 0 <= i < |al| ==> PlaceholderNumber(al[i]) <= MaxPlaceholder(al, max)
    ensures MaxPlaceholder(al, max) == max || Uses(al, MaxPlaceholder(al, max))
  {
    if al != [] {
      var next := if PlaceholderNumber(al[0]) > max then PlaceholderNumber(al[0]) else max;
      MaxIsMax(al[1..], next);
      if a :| a in al[1..] && PlaceholderNumber(a) == MaxPlaceholder(al, max) {
        assert a in al;
      }
      assert al[0] in al;
    }
  }

  // ----- counting -----

  ghost function Numbers(seen: seq<JitArg>): set<nat> {
    set a | a in seen :: PlaceholderNumber(a)
  }

  ghost function UpTo(n: nat): (s: set<nat>)
    ensures forall k :: k in s <==> 1 <= k <= n
    ensures |s| == n
  {
    if n == 0 then {} else UpTo(n - 1) + {n}
  }

  lemma {:induction false} NumbersBound(seen: seq<JitArg>)
    ensures |Numbers(seen)| <= |seen|
  {
    if seen != [] {
      var init := seen[..|seen| - 1];
      NumbersBound(init);
      assert Numbers(seen) == Numbers(init) + {PlaceholderNumber(seen[|seen| - 1])};
    }
  }

  ghost predicate Distinct(seen: seq<JitArg>) {
    forall i, j :: 0 <= i < j < |seen| ==> seen[i] != seen[j]
  }

  /** Distinct placeholders with one spelling each have distinct numbers. */
  lemma {:induction false} NumbersExact(seen: seq<JitArg>)
    requires Distinct(seen) && !Respelled(seen) && forall a :: a in seen ==> IsPlaceholder(a)
    ensures |Numbers(seen)| == |seen|
  {
    if seen != [] {
      var last := seen[|seen| - 1];
      var init := seen[..|seen| - 1];
      assert forall a :: a in seen <==> a in init || a == last;
      assert last !in init;
      NumbersExact(init);
      assert PlaceholderNumber(last) !in Numbers(init);
      assert Numbers(seen) == Numbers(init) + {PlaceholderNumber(last)};
    }
  }

  /** A placeholder seen under two spellings leaves one number short. */
  lemma {:induction false} NumbersShort(seen: seq<JitArg>)
    requires Distinct(seen) && Respelled(seen)
    ensures |Numbers(seen)| < |seen|
  {
    var a, b :| a in seen && b in seen && IsPlaceholder(a) && a != b && PlaceholderNumber(a) == PlaceholderNumber(b);
    var i :| 0 <= i < |seen| && seen[i] == a;
    var rest := seen[..i] + seen[i + 1..];
    NumbersBound(rest);
    assert forall x :: x in seen ==> x in rest || x == a;
    assert Numbers(seen) <= Numbers(rest);
    SubsetSize(Numbers(seen), Numbers(rest));
  }

  lemma {:induction false} SubsetSize(a: set<nat>, b: set<nat>)
    requires a <= b
    ensures |a| <= |b|
  {
    assert b == a + (b - a);
  }

  lemma {:induction false} FullSubset(a: set<nat>, b: set<nat>)
    requires a <= b && |a| == |b|
    ensures a == b
  {
    assert b == a + (b - a);
  }

  /** Seeing all of 1..n takes at least n placeholders. */
  lemma {:induction false} CoverCount(seen: seq<JitArg>, n: nat)
    requires Covers(seen, n)
    ensures |seen| >= n
  {
    forall k | k in UpTo(n) ensures k in Numbers(seen) {
      assert Uses(seen, k);
    }
    SubsetSize(UpTo(n), Numbers(seen));
    NumbersBound(seen);
  }

  /** Pigeonhole: n distinct placeholders from 1..n cover 1..n exactly when none is spelled twice. */
  lemma {:induction false} Pigeonhole(seen: seq<JitArg>, n: nat)
    requires Distinct(seen) && |seen| == n && forall a :: a in seen ==> 1 <= PlaceholderNumber(a) <= n
    ensures Covers(seen, n) <==> !Respelled(seen)
  {
    if Respelled(seen) {
      NumbersShort(seen);
      if Covers(seen, n) {
        forall k | k in UpTo(n) ensures k in Numbers(seen) {
          assert Uses(seen, k);
        }
        SubsetSize(UpTo(n), Numbers(seen));
      }
    } else {
      NumbersExact(seen);
      assert Numbers(seen) <= UpTo(n);
      FullSubset(Numbers(seen), UpTo(n));
      forall k | 1 <= k <= n ensures Uses(seen, k) {
        assert k in Numbers(seen);
      }
    }
  }

  // ----- the mapping is correct -----

  /** `seen` lists, once each, the placeholders of the arguments processed so far. */
  ghost predicate SeenOk(pre: seq<JitArg>, seen: seq<JitArg>, n: nat) {
    && |seen| <= n
    && Distinct(seen)
    && (forall a :: a in seen <==> a in pre && IsPlaceholder(a))
    && (forall a :: a in pre ==> PlaceholderNumber(a) <= n)
  }

  /** The entries of `result` that are set are those of the placeholders used so far. */
  ghost predicate FilledOk<T>(pre: seq<JitArg>, result: seq<Option<T>>, n: nat) {
    |result| == n && forall k :: 0 <= k < n ==> (result[k].Some? <==> Uses(pre, k + 1))
  }

  /** Each entry that is set holds the type of the parameter at the first use. */
  ghost predicate TypesOk<T>(pl: seq<T>, base: nat, pre: seq<JitArg>, result: seq<Option<T>>) {
    && base + |pre| <= |pl|
    && forall k, i :: 1 <= k <= |result| && IsFirstUse(pre, k, i) ==> result[k - 1] == Some(pl[base + i])
  }

  function NextResult<T>(result: seq<Option<T>>, seen: seq<JitArg>, a: JitArg, t: T): seq<Option<T>>
    requires PlaceholderNumber(a) <= |result|
  {
    if IsPlaceholder(a) && a !in seen then result[PlaceholderNumber(a) - 1 := Some(t)] else result
  }

  function NextSeen(seen: seq<JitArg>, a: JitArg): seq<JitArg> {
    if IsPlaceholder(a) && a !in seen then seen + [a] else seen
  }

  lemma {:induction false} SeenStep(pre: seq<JitArg>, seen: seq<JitArg>, n: nat, a: JitArg)
    requires SeenOk(pre, seen, n) && |seen| < n && PlaceholderNumber(a) <= n
    ensures SeenOk(pre + [a], NextSeen(seen, a), n)
  {
    assert forall b :: b in pre + [a] <==> b in pre || b == a;
  }

  lemma {:induction false} FilledStep<T>(pre: seq<JitArg>, result: seq<Option<T>>, seen: seq<JitArg>, n: nat, a: JitArg, t: T)
    requires SeenOk(pre, seen, n) && FilledOk(pre, result, n) && PlaceholderNumber(a) <= n
    ensures FilledOk(pre + [a], NextResult(result, seen, a, t), n)
  {
    var result' := NextResult(result, seen, a, t);
    forall k | 0 <= k < n ensures result'[k].Some? <==> Uses(pre + [a], k + 1) {
      UsesExtend(pre, a, k + 1);
      if IsPlaceholder(a) && a in seen && PlaceholderNumber(a) == k + 1 {
        assert Uses(pre, k + 1);
      }
    }
  }

  lemma {:induction false} UsesExtend(pre: seq<JitArg>, a: JitArg, k: nat)
    ensures Uses(pre + [a], k) <==> Uses(pre, k) || PlaceholderNumber(a) == k
  {
    assert forall b :: b in pre + [a] <==> b in pre || b == a;
  }

  lemma {:induction false} RespelledMono(pre: seq<JitArg>, all: seq<JitArg>)
    requires forall a :: a in pre ==> a in all
    ensures Respelled(pre) ==> Respelled(all)
  {
  }

  lemma {:induction false} FirstUseExtend(pre: seq<JitArg>, a: JitArg, k: nat, i: nat)
    requires IsFirstUse(pre + [a], k, i)
    ensures IsFirstUse(pre, k, i) || (i == |pre| && PlaceholderNumber(a) == k && !Uses(pre, k))
  {
    assert forall j :: 0 <= j < |pre| ==> (pre + [a])[j] == pre[j];
  }

  lemma {:induction false} TypesStep<T>(pl: seq<T>, base: nat, pre: seq<JitArg>, result: seq<Option<T>>, seen: seq<JitArg>, n: nat, a: JitArg)
    requires SeenOk(pre, seen, n) && |result| == n && TypesOk(pl, base, pre, result)
    requires PlaceholderNumber(a) <= n && base + |pre| < |pl|
    requires !Respelled(pre + [a])
    ensures TypesOk(pl, base, pre + [a], NextResult(result, seen, a, pl[base + |pre|]))
  {
    var result' := NextResult(result, seen, a, pl[base + |pre|]);
    forall k: nat, i: nat | 1 <= k <= n && IsFirstUse(pre + [a], k, i) ensures result'[k - 1] == Some(pl[base + i]) {
      FirstUseExtend(pre, a, k, i);
      if IsFirstUse(pre, k, i) {
        assert result[k - 1] == Some(pl[base + i]);
        if PlaceholderNumber(a) == k { SpelledOnce(pre, a, pre[i]); }
      }
    }
  }

  lemma {:induction false} SpelledOnce(pre: seq<JitArg>, a: JitArg, b: JitArg)
    requires !Respelled(pre + [a]) && b in pre && IsPlaceholder(b) && PlaceholderNumber(a) == PlaceholderNumber(b)
    ensures a == b
  {
    assert a in pre + [a] && b in pre + [a];
  }

  /** Some prefix mentions all of 1..n, each under a single spelling. */
  ghost predicate Bindable(al: seq<JitArg>, n: nat) {
    exists m: nat :: m <= |al| && Covers(al[..m], n) && !Respelled(al[..m])
  }

  lemma {:induction false} FirstUsePrefix(pre: seq<JitArg>, al: seq<JitArg>, k: nat, i: nat)
    requires IsFirstUse(pre + al, k, i) && Uses(pre, k)
    ensures IsFirstUse(pre, k, i)
  {
    var b :| b in pre && PlaceholderNumber(b) == k;
    var j :| 0 <= j < |pre| && pre[j] == b;
    assert (pre + al)[j] == b;
    assert forall j :: 0 <= j < |pre| ==> (pre + al)[j] == pre[j];
  }

  /** The part of the mapping's meaning that every recursive call keeps. */
  ghost predicate Correct<T>(mapping: Mapping<T>, pl: seq<T>, base: nat, al: seq<JitArg>, n: nat) {
    && (mapping.Accepted? <==> Bindable(al, n))
    && (mapping.Accepted? ==> |mapping.params| == n)
    && (mapping.Accepted? ==> base + |al| <= |pl| && forall k, i :: 1 <= k <= n && IsFirstUse(al, k, i) ==>
          mapping.params[k - 1] == pl[base + i])
    && (mapping.Rejected? ==> mapping.error.Unbound? || (mapping.error.VoidInResult? && Respelled(al)))
  }

  /** All placeholders have been seen: the three final assertions hold unless one was respelled on the way. */
  lemma {:induction false} DoneCorrect<T>(pl: seq<T>, base: nat, pre: seq<JitArg>, al: seq<JitArg>, result: seq<Option<T>>, seen: seq<JitArg>, n: nat)
    requires SeenOk(pre, seen, n) && FilledOk(pre, result, n) && |seen| == n
    requires !Respelled(pre) ==> TypesOk(pl, base, pre, result)
    requires base + |pre + al| <= |pl|
    requires forall m :: 0 <= m < |pre| ==> !Covers(pre[..m], n)
    ensures Correct(Helper(pl, al, result, seen, n), pl, base, pre + al, n)
  {
    Pigeonhole(seen, n);
    SameCover(pre, seen, n);
    if Respelled(pre) {
      RespelledMono(pre, pre + al);
      var k :| 1 <= k <= n && !Uses(pre, k);
      assert result[k - 1] == None;
      NeverBindable(pre, al, n);
    } else {
      assert (pre + al)[..|pre|] == pre;
      forall k | 0 <= k < n ensures result[k].Some? {
        assert Uses(pre, k + 1);
      }
      forall k: nat, i: nat | 1 <= k <= n && IsFirstUse(pre + al, k, i) ensures result[k - 1] == Some(pl[base + i]) {
        assert Uses(pre, k);
        FirstUsePrefix(pre, al, k, i);
      }
    }
  }

  lemma {:induction false} NeverBindable(pre: seq<JitArg>, al: seq<JitArg>, n: nat)
    requires Respelled(pre) && forall m :: 0 <= m < |pre| ==> !Covers(pre[..m], n)
    ensures !Bindable(pre + al, n)
  {
    var all := pre + al;
    forall m: nat | m <= |all| ensures !(Covers(all[..m], n) && !Respelled(all[..m])) {
      if m < |pre| {
        assert all[..m] == pre[..m];
      } else {
        assert pre == all[..m][..|pre|];
        RespelledMono(pre, all[..m]);
      }
    }
  }

  lemma {:induction false} SameCover(pre: seq<JitArg>, seen: seq<JitArg>, n: nat)
    requires SeenOk(pre, seen, n)
    ensures Covers(pre, n) <==> Covers(seen, n)
    ensures Respelled(pre) <==> Respelled(seen)
  {
    forall k | 1 <= k <= n ensures Uses(pre, k) <==> Uses(seen, k) {
      if a :| a in pre && PlaceholderNumber(a) == k {
        assert a in seen;
      }
      if a :| a in seen && PlaceholderNumber(a) == k {
        assert a in pre;
      }
    }
  }

  /** Fewer than n placeholders seen cannot cover 1..n. */
  lemma {:induction false} NotCoveredYet(pre: seq<JitArg>, seen: seq<JitArg>, n: nat)
    requires SeenOk(pre, seen, n) && |seen| < n
    ensures !Covers(pre, n)
  {
    SameCover(pre, seen, n);
    if Covers(seen, n) {
      CoverCount(seen, n);
    }
  }

  lemma {:induction false} HelperCorrect<T>(pl: seq<T>, base: nat, pre: seq<JitArg>, al: seq<JitArg>, all: seq<JitArg>,
                                            result: seq<Option<T>>, seen: seq<JitArg>, n: nat)
    requires all == pre + al && base + |all| == |pl|
    requires SeenOk(pre, seen, n) && FilledOk(pre, result, n)
    requires !Respelled(pre) ==> TypesOk(pl, base, pre, result)
    requires forall a :: a in al ==> PlaceholderNumber(a) <= n
    requires forall m :: 0 <= m < |pre| ==> !Covers(pre[..m], n)
    ensures Correct(Helper(pl, al, result, seen, n), pl, base, all, n)
    decreases |al|
  {
    if |seen| == n {
      DoneCorrect(pl, base, pre, al, result, seen, n);
    } else {
      NotCoveredYet(pre, seen, n);
      if al == [] {
        NoPrefixCovers(pre, n);
        assert all == pre;
      } else {
        StepKeeps(pl, base, pre, al[0], result, seen, n);
        assert all == pre + [al[0]] + al[1..];
        HelperCorrect(pl, base, pre + [al[0]], al[1..], all,
                      NextResult(result, seen, al[0], pl[base + |pre|]), NextSeen(seen, al[0]), n);
      }
    }
  }

  lemma {:induction false} NoPrefixCovers(pre: seq<JitArg>, n: nat)
    requires !Covers(pre, n) && forall m :: 0 <= m < |pre| ==> !Covers(pre[..m], n)
    ensures !Bindable(pre, n)
  {
    assert pre[..|pre|] == pre;
  }

  lemma {:induction false} StepKeeps<T>(pl: seq<T>, base: nat, pre: seq<JitArg>, a: JitArg, result: seq<Option<T>>, seen: seq<JitArg>, n: nat)
    requires SeenOk(pre, seen, n) && FilledOk(pre, result, n) && |seen| < n
    requires !Respelled(pre) ==> TypesOk(pl, base, pre, result)
    requires PlaceholderNumber(a) <= n && base + |pre| < |pl|
    requires !Covers(pre, n) && forall m :: 0 <= m < |pre| ==> !Covers(pre[..m], n)
    ensures SeenOk(pre + [a], NextSeen(seen, a), n)
    ensures FilledOk(pre + [a], NextResult(result, seen, a, pl[base + |pre|]), n)
    ensures !Respelled(pre + [a]) ==> TypesOk(pl, base, pre + [a], NextResult(result, seen, a, pl[base + |pre|]))
    ensures forall m :: 0 <= m < |pre + [a]| ==> !Covers((pre + [a])[..m], n)
  {
    SeenStep(pre, seen, n, a);
    FilledStep(pre, result, seen, n, a, pl[base + |pre|]);
    RespelledMono(pre, pre + [a]);
    if !Respelled(pre + [a]) {
      TypesStep(pl, base, pre, result, seen, n, a);
    }
    forall m | 0 <= m < |pre + [a]| ensures !Covers((pre + [a])[..m], n) {
      assert (pre + [a])[..m] == pre[..m];
      assert m == |pre| ==> pre[..m] == pre;
    }
  }

  // ----- main results -----

  /**
   The mapping is accepted exactly when some prefix of the arguments uses all of 1..N, each under one
   spelling; then parameter k of the result is the one that placeholder k+1 first stands for.
   */
  lemma {:induction false} MappingCorrect<T>(pl: seq<T>, al: seq<JitArg>)
    requires |al| <= |pl|
    ensures Correct(MapPlaceholders(pl, al), pl, |pl| - |al|, al, MaxPlaceholder(al, 0))
  {
    var n := MaxPlaceholder(al, 0);
    MaxIsMax(al, 0);
    StartOk(pl, |pl| - |al|, n);
    HelperCorrect(pl, |pl| - |al|, [], al, al, InitList<T>(n), [], n);
  }

  lemma {:induction false} StartOk<T>(pl: seq<T>, base: nat, n: nat)
    requires base <= |pl|
    ensures SeenOk([], [], n) && FilledOk([], InitList<T>(n), n) && TypesOk(pl, base, [], InitList<T>(n))
  {
  }

  /** With one spelling per placeholder: accepted exactly when there is no gap, and no final assertion ever fails. */
  lemma {:induction false} AcceptedIffGapFree<T>(pl: seq<T>, al: seq<JitArg>)
    requires |al| <= |pl| && !Respelled(al)
    ensures MapPlaceholders(pl, al).Accepted? <==> Covers(al, MaxPlaceholder(al, 0))
    ensures MapPlaceholders(pl, al).Rejected? ==> MapPlaceholders(pl, al).error == Unbound
  {
    var n := MaxPlaceholder(al, 0);
    MappingCorrect(pl, al);
    assert al[..|al|] == al;
    if Bindable(al, n) {
      var m: nat :| m <= |al| && Covers(al[..m], n) && !Respelled(al[..m]);
      forall k | 1 <= k <= n ensures Uses(al, k) {
        assert Uses(al[..m], k);
      }
    }
  }

  /** More arguments than parameters are rejected, unless nothing is forwarded. */
  lemma {:induction false} TooManyRejected<T>(pl: seq<T>, al: seq<JitArg>)
    requires |al| > |pl|
    ensures MapPlaceholders(pl, al) == if MaxPlaceholder(al, 0) == 0 then Accepted([]) else Rejected(TooManyArguments)
  {
  }

  /** The same placeholder under two types can be rejected although nothing is missing. */
  lemma {:induction false} RespelledCounterexample()
    ensures var al := [Placeholder(1, 0), Placeholder(1, 1), Placeholder(2, 0)];
      Covers(al, 2) && MapPlaceholders([10, 20, 30], al) == Rejected(VoidInResult)
  {
    var al := [Placeholder(1, 0), Placeholder(1, 1), Placeholder(2, 0)];
    var al1, al2 := al[1..], al[2..];
    assert al[0] in al && al[2] in al;
    assert al1[0] == Placeholder(1, 1) && al2[0] == Placeholder(2, 0);
    assert MaxPlaceholder(al2, 1) == 2;
    assert MaxPlaceholder(al, 0) == MaxPlaceholder(al1, 1) == MaxPlaceholder(al2, 1);
    var pl := [10, 20, 30];
    var init := InitList<int>(2);
    var r1 := init[0 := Some(10)];
    var r2 := r1[0 := Some(20)];
    assert Helper(pl, al, init, [], 2) == Helper(pl, al1, r1, [al[0]], 2);
    assert Helper(pl, al1, r1, [al[0]], 2) == Helper(pl, al2, r2, [al[0]] + [al1[0]], 2);
    assert r2[1] == None;
  }
}
