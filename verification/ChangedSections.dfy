/** What the diff of a list of nodes reports when its items come, go or change. */
module ChangedSections {
  import opened Wrappers
  import opened Tree
  import opened ListDiff
  import opened Alignments
  import opened AstDiff

  /** Between equal trees nothing is reported, however the lists in them are paired. */
  lemma {:induction false} EqualTreesReportNothing(a: Snap, b: Snap, n: nat)
    requires SnapEq(a, b) && Reported(a, b, n)
    ensures n == 0
    decreases a, 1
  {
    if SnapType(a) != OBJECT_PTR && SnapType(a) != COMMENT_GROUP_PTR {
      match a
      case RefS(_, e) => EqualTreesReportNothing(e, b.elem, n);
      case ListS(t, xs) =>
        var ys := b.children;
        if IsNodeList(t) {
          var at: Alignment, ns :| Reports(xs, ys, at, ns) && SumOf(ns) == n && IsFair(xs, ys, at);
          assert StartsAligned(at, |xs|) by {
            assert xs[..|xs|] == xs && ys[..|xs|] == ys;
          }
          EqualItemsReportNothing(xs, ys, at, ns);
        } else {
          var ns :| Reports(xs, ys, InOrder(|xs|), ns) && SumOf(ns) == n;
          EqualItemsReportNothing(xs, ys, InOrder(|xs|), ns);
        }
      case _ =>
    }
  }

  lemma {:induction false} EqualItemsReportNothing(xs: seq<Snap>, ys: seq<Snap>, at: Alignment, ns: seq<nat>)
    requires SnapEqAll(xs, ys) && Reports(xs, ys, at, ns) && StartsAligned(at, |xs|)
    ensures SumOf(ns) == 0
    decreases xs, 0
  {
    hide SnapEq, Reported;
    forall i | 0 <= i < |xs| ensures ns[i] == 0 { EqualTreesReportNothing(xs[i], ys[i], ns[i]); }
    NoneReported(ns);
  }

  /** The length of what two lists begin with in common. */
  ghost predicate Common(xs: seq<Snap>, ys: seq<Snap>, q: nat) {
    && q <= |xs| && q <= |ys|
    && (forall i | 0 <= i < q :: SnapEq(xs[i], ys[i]))
    && (q < |xs| && q < |ys| ==> !SnapEq(xs[q], ys[q]))
  }

  lemma {:induction false} SomeCommon(xs: seq<Snap>, ys: seq<Snap>, start: nat) returns (q: nat)
    requires start <= |xs| && start <= |ys| && forall i | 0 <= i < start :: SnapEq(xs[i], ys[i])
    ensures q >= start && Common(xs, ys, q)
    decreases |xs| - start
  {
    hide SnapEq;
    if start < |xs| && start < |ys| && SnapEq(xs[start], ys[start]) {
      q := SomeCommon(xs, ys, start + 1);
    } else {
      q := start;
    }
  }

  /** The alignment pairs the first q items with each other, and the last k items. */
  lemma {:induction false} EndsArePaired(xs: seq<Snap>, ys: seq<Snap>, at: Alignment, q: nat, k: nat)
    requires IsFair(xs, ys, at) && Common(xs, ys, q) && q + k <= |xs| && q + k <= |ys|
    requires SnapEqAll(xs[|xs| - k..], ys[|ys| - k..])
    ensures Ordered(at, |ys|) && StartsAligned(at, q)
    ensures q < |xs| && q < |ys| ==> EndsAligned(at, |ys|, k)
  {
    hide SnapEq, Scores, Ordered, StartsAligned, EndsAligned;
    var rs: seq<Result> :| Scores(xs, ys, at, rs) && Fair(xs, ys, at, rs);
    assert SnapEqAll(xs[..q], ys[..q]);
  }

  /** An item paired with an equal one reports nothing. */
  lemma {:induction false} PairIsSilent(xs: seq<Snap>, ys: seq<Snap>, at: Alignment, ns: seq<nat>, i: nat, j: nat)
    requires Reports(xs, ys, at, ns) && i < |xs| && j < |ys| && at[i] == Some(j) && SnapEq(xs[i], ys[j])
    ensures ns[i] == 0
  {
    hide SnapEq, Reported;
    EqualTreesReportNothing(xs[i], ys[j], ns[i]);
  }

  lemma {:induction false} ItemsReport(xs: seq<Snap>, ys: seq<Snap>, at: Alignment, ns: seq<nat>)
    requires Reports(xs, ys, at, ns)
    ensures |ns| == |xs| == |at|
    ensures forall i | 0 <= i < |xs| && at[i].None? :: ns[i] == 1
    ensures forall i | 0 <= i < |xs| && at[i].Some? :: at[i].value < |ys| && Reported(xs[i], ys[at[i].value], ns[i])
  {
    hide Reported;
  }

  lemma {:induction false} EndsAreSilent(xs: seq<Snap>, ys: seq<Snap>, at: Alignment, ns: seq<nat>, q: nat, k: nat)
    requires Reports(xs, ys, at, ns) && Common(xs, ys, q) && StartsAligned(at, q) && EndsAligned(at, |ys|, k) && k <= |xs|
    requires SnapEqAll(xs[|xs| - k..], ys[|ys| - k..])
    ensures forall i | 0 <= i < |ns| && (i < q || i >= |xs| - k) :: ns[i] == 0
  {
    hide SnapEq, Reports;
    ItemsReport(xs, ys, at, ns);
    forall i | 0 <= i < |ns| && (i < q || i >= |xs| - k) ensures ns[i] == 0 {
      if i < q {
        PairIsSilent(xs, ys, at, ns, i, i);
      } else {
        assert xs[|xs| - k..][i - (|xs| - k)] == xs[i] && ys[|ys| - k..][i - (|xs| - k)] == ys[|ys| - (|xs| - i)];
        PairIsSilent(xs, ys, at, ns, i, |ys| - (|xs| - i));
      }
    }
  }

  lemma {:induction false} SumBetween(ns: seq<nat>, lo: nat, hi: nat, x: nat)
    requires lo <= hi && forall i | 0 <= i < |ns| :: ns[i] == if lo <= i < hi then x else 0
    ensures SumOf(ns) == (if |ns| <= lo then 0 else if |ns| <= hi then |ns| - lo else hi - lo) * x
  {
    if ns != [] {
      var n := |ns| - 1;
      SumBetween(ns[..n], lo, hi, x);
      if lo <= n < hi {
        assert (n - lo) * x + x == (n + 1 - lo) * x;
      }
    }
  }

  /** The two lists begin with the same p items and end with the same s items. */
  ghost predicate SameAround(xs: seq<Snap>, ys: seq<Snap>, p: nat, s: nat) {
    && p + s <= |xs| && p + s <= |ys|
    && SnapEqAll(xs[..p], ys[..p]) && SnapEqAll(xs[|xs| - s..], ys[|ys| - s..])
  }

  lemma {:induction false} LastOfLast(xs: seq<Snap>, ys: seq<Snap>, s: nat, k: nat)
    requires k <= s <= |xs| && s <= |ys| && SnapEqAll(xs[|xs| - s..], ys[|ys| - s..])
    ensures SnapEqAll(xs[|xs| - k..], ys[|ys| - k..])
  {
    hide SnapEq;
    assert xs[|xs| - k..] == xs[|xs| - s..][s - k..] && ys[|ys| - k..] == ys[|ys| - s..][s - k..];
  }

  /** How far the lists are the same from the start, and how many items from there on to the end of the shorter one. */
  lemma {:induction false} Split(xs: seq<Snap>, ys: seq<Snap>, p: nat, s: nat, at: Alignment, ns: seq<nat>)
    returns (q: nat, k: nat)
    requires SameAround(xs, ys, p, s) && (p + s == |xs| || p + s == |ys|)
    requires Reports(xs, ys, at, ns) && IsFair(xs, ys, at)
    ensures q + k == p + s && |ns| == |xs| == |at|
    ensures Ordered(at, |ys|) && StartsAligned(at, q) && EndsAligned(at, |ys|, k)
    ensures forall i | 0 <= i < |ns| && (i < q || i >= |xs| - k) :: ns[i] == 0
  {
    hide SnapEq, Reports, IsFair;
    ItemsReport(xs, ys, at, ns);
    assert forall i | 0 <= i < p :: SnapEq(xs[..p][i], ys[..p][i]) && xs[..p][i] == xs[i] && ys[..p][i] == ys[i];
    q := SomeCommon(xs, ys, p);
    k := p + s - q;
    assert SnapEqAll(xs[|xs| - k..], ys[|ys| - k..]) by { LastOfLast(xs, ys, s, k); }
    EndsArePaired(xs, ys, at, q, k);
    EndsAreSilent(xs, ys, at, ns, q, k);
  }

  lemma {:induction false} NodeReports(t: Type, xs: seq<Snap>, ys: seq<Snap>, n: nat) returns (at: Alignment, ns: seq<nat>)
    requires IsNodeList(t) && Reported(ListS(t, xs), ListS(t, ys), n)
    ensures Reports(xs, ys, at, ns) && SumOf(ns) == n && IsFair(xs, ys, at)
  {
    at, ns :| Reports(xs, ys, at, ns) && SumOf(ns) == n && IsFair(xs, ys, at);
  }

  /** Two leaves are similar exactly if they have the same type, whatever they hold. */
  lemma {:induction false} LeavesOfOneTypeAreSimilar(a: Snap, b: Snap, r: Result)
    requires Scored(a, b, r) && !a.ListS? && !a.RefS?
    ensures r.Similar() <==> SnapType(a) == SnapType(b)
  {
  }

  /** Items that are inserted in one place are not reported. */
  lemma {:induction false} InsertionsAreNotReported(t: Type, xs: seq<Snap>, ys: seq<Snap>, p: nat, s: nat, n: nat)
    requires IsNodeList(t) && SameAround(xs, ys, p, s) && |xs| == p + s
    requires Reported(ListS(t, xs), ListS(t, ys), n)
    ensures n == 0
  {
    hide SnapEq, Reports, IsFair, SameAround;
    var at: Alignment, ns := NodeReports(t, xs, ys, n);
    var q, k := Split(xs, ys, p, s, at, ns);
    NoneReported(ns);
  }

  /** Items that are removed in one place are reported, one section each. */
  lemma {:induction false} DeletionsAreReported(t: Type, xs: seq<Snap>, ys: seq<Snap>, p: nat, s: nat, n: nat)
    requires IsNodeList(t) && SameAround(xs, ys, p, s) && |ys| == p + s
    requires Reported(ListS(t, xs), ListS(t, ys), n)
    ensures n == |xs| - |ys|
  {
    hide SnapEq, Reports, IsFair, SameAround;
    var at: Alignment, ns := NodeReports(t, xs, ys, n);
    var q, k := Split(xs, ys, p, s, at, ns);
    ItemsReport(xs, ys, at, ns);
    forall i | q <= i < |xs| - k ensures at[i].None? {
      assert q > 0 ==> at[q - 1] == Some(q - 1);
      assert k > 0 ==> at[|xs| - k] == Some(|ys| - k);
    }
    SumBetween(ns, q, |xs| - k, 1);
  }

  lemma {:induction false} PartnersAreSimilar(xs: seq<Snap>, ys: seq<Snap>, at: Alignment, i: nat)
    requires IsFair(xs, ys, at) && i < |at| && at[i].Some?
    ensures i < |xs| && at[i].value < |ys| && exists r :: Scored(xs[i], ys[at[i].value], r) && r.Similar()
  {
    hide Scored;
    var rs: seq<Result> :| Scores(xs, ys, at, rs) && Fair(xs, ys, at, rs);
    assert Scored(xs[i], ys[at[i].value], rs[i]) && rs[i].Similar();
  }

  /** An item that is replaced by another one is reported as one section, or looked into if the two are similar. */
  lemma {:induction false} ReplacementIsReported(t: Type, xs: seq<Snap>, ys: seq<Snap>, p: nat, s: nat, n: nat)
    requires IsNodeList(t) && SameAround(xs, ys, p, s) && |xs| == |ys| == p + 1 + s && !SnapEq(xs[p], ys[p])
    requires Reported(ListS(t, xs), ListS(t, ys), n)
    ensures n == 1 || (Reported(xs[p], ys[p], n) && exists r :: Scored(xs[p], ys[p], r) && r.Similar())
  {
    hide SnapEq, Reported, Scored, Reports, IsFair;
    var at: Alignment, ns := NodeReports(t, xs, ys, n);
    ItemsReport(xs, ys, at, ns);
    assert forall i | 0 <= i < p :: SnapEq(xs[..p][i], ys[..p][i]) && xs[..p][i] == xs[i] && ys[..p][i] == ys[i];
    EndsArePaired(xs, ys, at, p, s);
    EndsAreSilent(xs, ys, at, ns, p, s);
    SumBetween(ns, p, p + 1, ns[p]);
    if at[p].Some? {
      assert p > 0 ==> at[p - 1] == Some(p - 1);
      assert s > 0 ==> at[p + 1] == Some(p + 1);
      assert at[p] == Some(p);
      PartnersAreSimilar(xs, ys, at, p);
    }
  }
}
