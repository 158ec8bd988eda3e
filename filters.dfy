/**
  The filter step: the user's selection narrows the full record set to the records that satisfy
  every active condition. An empty state or month selection and the "every cause" entry impose no
  condition at all; they do not mean "match nothing".
 */
module Filters {
  import opened Masking
  import opened Accidents

  /** What the three selectors currently hold: chosen states, chosen months and one cause. */
  datatype Selection = Selection(ufs: seq<string>, meses: seq<string>, causa: string)

  /** One boolean mask the filter step may apply: a column's `isin` test or an equality test. */
  datatype Mask = UfIn(ufs: seq<string>) | MesIn(meses: seq<string>) | CausaIs(causa: string)

  predicate Holds(m: Mask, r: Record)
  {
    match m
    case UfIn(ufs) => r.uf in ufs
    case MesIn(meses) => r.mes in meses
    case CausaIs(causa) => r.causaAcidente == causa
  }

  /** The records that pass mask `m`, in their original order. */
  function Apply(rs: seq<Record>, m: Mask): (out: seq<Record>)
    ensures forall r :: r in out <==> r in rs && Holds(m, r)
  {
    Where(rs, r => Holds(m, r))
  }

  /** The masks a selection switches on, in the order the filter step applies them. */
  function ActiveMasks(sel: Selection): (ms: seq<Mask>)
    ensures |ms| <= 3
    ensures UfIn(sel.ufs) in ms <==> sel.ufs != []
    ensures MesIn(sel.meses) in ms <==> sel.meses != []
    ensures CausaIs(sel.causa) in ms <==> sel.causa != Todas
    ensures forall m :: m in ms ==> m == UfIn(sel.ufs) || m == MesIn(sel.meses) || m == CausaIs(sel.causa)
  {
    (if sel.ufs != [] then [UfIn(sel.ufs)] else [])
    + (if sel.meses != [] then [MesIn(sel.meses)] else [])
    + (if sel.causa != Todas then [CausaIs(sel.causa)] else [])
  }

  /** The record satisfies every condition the selection makes. An empty selection makes no
      condition, and a record whose state, month and cause are all selected always matches. */
  predicate Matches(r: Record, sel: Selection)
    ensures sel.ufs == [] && sel.meses == [] && sel.causa == Todas ==> Matches(r, sel)
    ensures r.uf in sel.ufs && r.mes in sel.meses && r.causaAcidente == sel.causa ==> Matches(r, sel)
  {
    && (sel.ufs != [] ==> r.uf in sel.ufs)
    && (sel.meses != [] ==> r.mes in sel.meses)
    && (sel.causa != Todas ==> r.causaAcidente == sel.causa)
  }

  /** The reference result of the filter step: the matching records, in their original order. */
  function Filtered(rs: seq<Record>, sel: Selection): (out: seq<Record>)
    ensures |out| <= |rs|
    ensures forall r :: r in out ==> r in rs
    ensures forall r :: r in out ==> Matches(r, sel)
    ensures forall r :: r in rs && Matches(r, sel) ==> r in out
  {
    Where(rs, r => Matches(r, sel))
  }

  /** Applies the masks one after another, each to the result of the previous one. */
  function ApplyAll(rs: seq<Record>, ms: seq<Mask>): seq<Record>
    decreases |ms|
  {
    if ms == [] then rs else ApplyAll(Apply(rs, ms[0]), ms[1..])
  }

  /** Applying one more mask at the end filters the previous result once more. */
  lemma {:induction false} ApplyAllThenApply(rs: seq<Record>, ms: seq<Mask>, m: Mask)
    ensures ApplyAll(rs, ms + [m]) == Apply(ApplyAll(rs, ms), m)
    decreases |ms|
  {
    if ms != [] {
      ApplyAllThenApply(Apply(rs, ms[0]), ms[1..], m);
      assert (ms + [m])[1..] == ms[1..] + [m];
    }
  }

  predicate AllHold(ms: seq<Mask>, r: Record)
  {
    forall m :: m in ms ==> Holds(m, r)
  }

  /** Applying masks in sequence keeps exactly the records that pass all of them. */
  lemma {:induction false} ApplyAllIsConjunction(rs: seq<Record>, ms: seq<Mask>)
    ensures ApplyAll(rs, ms) == Where(rs, r => AllHold(ms, r))
    decreases |ms|
  {
    if ms == [] {
      WhereKeepsAll(rs, r => AllHold(ms, r));
    } else {
      var first := r => Holds(ms[0], r);
      var later := r => AllHold(ms[1..], r);
      ApplyAllIsConjunction(Apply(rs, ms[0]), ms[1..]);
      assert Apply(rs, ms[0]) == Where(rs, first);
      assert ApplyAll(rs, ms) == Where(Where(rs, first), later);
      var all := r => AllHold(ms, r);
      forall r ensures all(r) == (first(r) && later(r)) {
        assert ms == [ms[0]] + ms[1..];
      }
      WhereWhere(rs, first, later, all);
    }
  }

  /** A record matches a selection exactly when it passes every mask the selection switches on. */
  lemma MatchesIffActiveMasksHold(r: Record, sel: Selection)
    ensures Matches(r, sel) <==> AllHold(ActiveMasks(sel), r)
  {
    var ms := ActiveMasks(sel);
    if AllHold(ms, r) {
      assert sel.ufs != [] ==> UfIn(sel.ufs) in ms;
      assert sel.meses != [] ==> MesIn(sel.meses) in ms;
      assert sel.causa != Todas ==> CausaIs(sel.causa) in ms;
    }
  }

  /** Applying the active masks in their source order gives the reference result. */
  lemma FilteredByActiveMasks(rs: seq<Record>, sel: Selection)
    ensures ApplyAll(rs, ActiveMasks(sel)) == Filtered(rs, sel)
  {
    ApplyAllIsConjunction(rs, ActiveMasks(sel));
    forall r | r in rs ensures AllHold(ActiveMasks(sel), r) == Matches(r, sel) {
      MatchesIffActiveMasksHold(r, sel);
    }
    WhereCongruent(rs, r => AllHold(ActiveMasks(sel), r), r => Matches(r, sel));
  }

  /** The order of the masks does not matter, nor does a repeated mask: any two mask lists with
      the same members select the same records. */
  lemma MaskOrderIrrelevant(rs: seq<Record>, ms: seq<Mask>, ns: seq<Mask>)
    requires forall m :: m in ms <==> m in ns
    ensures ApplyAll(rs, ms) == ApplyAll(rs, ns)
  {
    ApplyAllIsConjunction(rs, ms);
    ApplyAllIsConjunction(rs, ns);
    WhereCongruent(rs, r => AllHold(ms, r), r => AllHold(ns, r));
  }

  /** The state, month and cause filters may be applied in any order. */
  lemma FilterOrderIrrelevant(rs: seq<Record>, sel: Selection, ms: seq<Mask>)
    requires multiset(ms) == multiset(ActiveMasks(sel))
    ensures ApplyAll(rs, ms) == Filtered(rs, sel)
  {
    forall m ensures m in ms <==> m in ActiveMasks(sel) {
      assert m in ms <==> m in multiset(ms);
    }
    MaskOrderIrrelevant(rs, ms, ActiveMasks(sel));
    FilteredByActiveMasks(rs, sel);
  }

  /** The filter step: start from the full set and apply each active mask in turn. */
  method ApplyFilters(dfAcidentes: seq<Record>, sel: Selection) returns (dfFiltrado: seq<Record>)
    ensures dfFiltrado == Filtered(dfAcidentes, sel)
  {
    dfFiltrado := dfAcidentes;
    ghost var applied: seq<Mask> := [];
    if sel.ufs != [] {
      ApplyAllThenApply(dfAcidentes, applied, UfIn(sel.ufs));
      dfFiltrado := Apply(dfFiltrado, UfIn(sel.ufs));
      applied := applied + [UfIn(sel.ufs)];
    }
    if sel.meses != [] {
      ApplyAllThenApply(dfAcidentes, applied, MesIn(sel.meses));
      dfFiltrado := Apply(dfFiltrado, MesIn(sel.meses));
      applied := applied + [MesIn(sel.meses)];
    }
    if sel.causa != Todas {
      ApplyAllThenApply(dfAcidentes, applied, CausaIs(sel.causa));
      dfFiltrado := Apply(dfFiltrado, CausaIs(sel.causa));
      applied := applied + [CausaIs(sel.causa)];
    }
    assert dfFiltrado == ApplyAll(dfAcidentes, applied);
    assert applied == ActiveMasks(sel);
    FilteredByActiveMasks(dfAcidentes, sel);
  }

  /** With no state, no month and every cause selected, nothing is filtered out. */
  lemma NoSelectionKeepsAll(rs: seq<Record>)
    ensures Filtered(rs, Selection([], [], Todas)) == rs
  {
    WhereKeepsAll(rs, r => Matches(r, Selection([], [], Todas)));
  }

  /** A state and month selection that lists the state and the month of every record
      restricts nothing. */
  lemma CoveringSelectionIsNoRestriction(rs: seq<Record>, ufs: seq<string>, meses: seq<string>, causa: string)
    requires forall r :: r in rs ==> r.uf in ufs && r.mes in meses
    ensures Filtered(rs, Selection(ufs, meses, causa)) == Filtered(rs, Selection([], [], causa))
  {
    var all := Selection(ufs, meses, causa);
    var none := Selection([], [], causa);
    WhereCongruent(rs, r => Matches(r, all), r => Matches(r, none));
  }

  /** The result is the input with the non-matching records deleted: it keeps their order, and
      each matching record occurs as often as in the input. */
  lemma FilteredExactly(rs: seq<Record>, sel: Selection)
    ensures IsSubsequence(Filtered(rs, sel), rs)
    ensures forall r :: multiset(Filtered(rs, sel))[r] == if Matches(r, sel) then multiset(rs)[r] else 0
  {
    WhereIsSubsequence(rs, r => Matches(r, sel));
    forall r ensures multiset(Filtered(rs, sel))[r] == if Matches(r, sel) then multiset(rs)[r] else 0 {
      WhereCount(rs, r => Matches(r, sel), r);
    }
  }

  /** Filtering the result again with the same selection changes nothing. */
  lemma FilteredIdempotent(rs: seq<Record>, sel: Selection)
    ensures Filtered(Filtered(rs, sel), sel) == Filtered(rs, sel)
  {
    WhereIdempotent(rs, r => Matches(r, sel));
  }

  /** An empty state or month selection is no condition, not "match nothing": clearing it gives
      at least the records the selection gave before. */
  lemma EmptySelectionWidens(rs: seq<Record>, sel: Selection)
    ensures forall r :: r in Filtered(rs, sel) ==> r in Filtered(rs, sel.(ufs := []))
    ensures forall r :: r in Filtered(rs, sel) ==> r in Filtered(rs, sel.(meses := []))
    ensures forall r :: r in Filtered(rs, sel.(ufs := [])) || r in Filtered(rs, sel.(meses := [])) ==>
      r in Filtered(rs, sel.(ufs := [], meses := []))
  {
  }
}
