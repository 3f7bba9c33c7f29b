/**
 * The registry of dates in progress and the stage machine that moves a date
 * from the joy activity to lovin' and to its end.
 *
 * The registry is a list of dates. Lookups return the first date in list order
 * that involves a pawn; ending a date removes every date that involves the pawn.
 * Because a date is only added when neither pawn is on one, no pawn is ever in
 * two dates (`OneDatePerPawn`), and a date whose stage reaches `Finished` is
 * removed at once (`NoneFinished`).
 */
module Dating {
  import opened Options
  import opened Verse

  datatype DateStage = Joy | Lovin | Finished

  datatype Date = Date(initiator: Pawn, partner: Pawn, stage: DateStage)

  /** The pawn takes part in the date, on either side. */
  predicate Involves(d: Date, p: Pawn) {
    d.initiator == p || d.partner == p
  }

  /** The position of the first date involving `p`, or `|ds|` when there is none. */
  function FirstIndex(ds: seq<Date>, p: Pawn): (k: nat)
    ensures k <= |ds|
    ensures forall j :: 0 <= j < k ==> !Involves(ds[j], p)
    ensures k < |ds| ==> Involves(ds[k], p)
  {
    if ds == [] || Involves(ds[0], p) then 0 else 1 + FirstIndex(ds[1..], p)
  }

  /** The list after removing every date that involves `p` (`List.RemoveAll`). */
  function RemoveInvolving(ds: seq<Date>, p: Pawn): (r: seq<Date>)
    ensures forall d :: d in r <==> d in ds && !Involves(d, p)
    ensures |r| <= |ds|
  {
    if ds == [] then []
    else if Involves(ds[0], p) then RemoveInvolving(ds[1..], p)
    else [ds[0]] + RemoveInvolving(ds[1..], p)
  }

  /** Removal works element by element: it keeps all other dates, in their order, for any list. */
  lemma {:induction false} RemoveInvolvingAppend(a: seq<Date>, b: seq<Date>, p: Pawn)
    ensures RemoveInvolving(a + b, p) == RemoveInvolving(a, p) + RemoveInvolving(b, p)
  {
    if a != [] {
      assert (a + b)[1..] == a[1..] + b;
      RemoveInvolvingAppend(a[1..], b, p);
    } else {
      assert a + b == b;
    }
  }

  /** No pawn takes part in two different dates of the list. */
  ghost predicate OneDatePerPawn(ds: seq<Date>) {
    forall i, j, p :: 0 <= i < |ds| && 0 <= j < |ds| && Involves(ds[i], p) && Involves(ds[j], p) ==> i == j
  }

  /** No date in the list has reached its last stage. */
  ghost predicate NoneFinished(ds: seq<Date>) {
    forall i :: 0 <= i < |ds| ==> ds[i].stage != Finished
  }

  /** Removing dates that involve nobody in question leaves the list as it is. */
  lemma {:induction false} RemoveNothing(ds: seq<Date>, p: Pawn)
    requires forall i :: 0 <= i < |ds| ==> !Involves(ds[i], p)
    ensures RemoveInvolving(ds, p) == ds
  {
    if ds != [] {
      RemoveNothing(ds[1..], p);
    }
  }

  /**
   * When the date at `k` is the only one involving `p`, ending `p`'s date removes
   * exactly that date and keeps all the others in their order.
   */
  lemma {:induction false} RemoveOnlyThatDate(ds: seq<Date>, p: Pawn, k: nat)
    requires k < |ds| && Involves(ds[k], p)
    requires forall j :: 0 <= j < |ds| && j != k ==> !Involves(ds[j], p)
    ensures RemoveInvolving(ds, p) == ds[..k] + ds[k + 1..]
  {
    if k == 0 {
      NoneInTail(ds, p, 0);
      RemoveNothing(ds[1..], p);
    } else {
      NoneInTail(ds, p, k);
      RemoveOnlyThatDate(ds[1..], p, k - 1);
      KeepHead(ds, k, RemoveInvolving(ds[1..], p));
    }
  }

  /** The premise of `RemoveOnlyThatDate`, carried over to the tail of the list. */
  lemma NoneInTail(ds: seq<Date>, p: Pawn, k: nat)
    requires k < |ds| && forall j :: 0 <= j < |ds| && j != k ==> !Involves(ds[j], p)
    ensures forall j :: 0 <= j < |ds[1..]| && j != k - 1 ==> !Involves(ds[1..][j], p)
  {
    forall j | 0 <= j < |ds[1..]| && j != k - 1
      ensures !Involves(ds[1..][j], p)
    {
      assert ds[1..][j] == ds[j + 1];
    }
  }

  lemma KeepHead(ds: seq<Date>, k: nat, rest: seq<Date>)
    requires 0 < k < |ds| && rest == ds[1..][..k - 1] + ds[1..][k..]
    ensures [ds[0]] + rest == ds[..k] + ds[k + 1..]
  {
    assert ds[1..][..k - 1] == ds[1..k];
    assert ds[1..][k..] == ds[k + 1..];
    assert [ds[0]] + ds[1..k] == ds[..k];
  }

  /** Removing dates keeps the registry invariant. */
  lemma {:induction false} RemoveKeepsInvariant(ds: seq<Date>, p: Pawn)
    requires OneDatePerPawn(ds) && NoneFinished(ds)
    ensures OneDatePerPawn(RemoveInvolving(ds, p)) && NoneFinished(RemoveInvolving(ds, p))
  {
    var r := RemoveInvolving(ds, p);
    var k := FirstIndex(ds, p);
    if k < |ds| {
      assert forall j :: 0 <= j < |ds| && j != k ==> !Involves(ds[j], p);
      RemoveOnlyThatDate(ds, p, k);
      forall i, j, q | 0 <= i < |r| && 0 <= j < |r| && Involves(r[i], q) && Involves(r[j], q)
        ensures i == j
      {
        var i' := if i < k then i else i + 1;
        var j' := if j < k then j else j + 1;
        assert r[i] == ds[i'] && r[j] == ds[j'];
      }
      forall i | 0 <= i < |r|
        ensures r[i].stage != Finished
      {
        assert r[i] in ds;
      }
    } else {
      RemoveNothing(ds, p);
    }
  }

  /** Moving a date to a stage other than the last keeps the registry invariant. */
  lemma RestageKeepsInvariant(ds: seq<Date>, k: nat, s: DateStage)
    requires OneDatePerPawn(ds) && NoneFinished(ds) && k < |ds| && s != Finished
    ensures OneDatePerPawn(ds[k := ds[k].(stage := s)]) && NoneFinished(ds[k := ds[k].(stage := s)])
  {
    var ds' := ds[k := ds[k].(stage := s)];
    forall i, j, p | 0 <= i < |ds'| && 0 <= j < |ds'| && Involves(ds'[i], p) && Involves(ds'[j], p)
      ensures i == j
    {
      assert Involves(ds[i], p) && Involves(ds[j], p);
    }
  }

  /** Ending `p`'s date does not depend on the stage the date was left in. */
  lemma {:induction false} RemoveIgnoresStage(ds: seq<Date>, k: nat, s: DateStage, p: Pawn)
    requires k < |ds| && Involves(ds[k], p)
    ensures RemoveInvolving(ds[k := ds[k].(stage := s)], p) == RemoveInvolving(ds, p)
  {
    if k > 0 {
      assert ds[k := ds[k].(stage := s)][1..] == ds[1..][k - 1 := ds[k].(stage := s)];
      RemoveIgnoresStage(ds[1..], k - 1, s, p);
    } else {
      assert ds[k := ds[k].(stage := s)][1..] == ds[1..];
    }
  }

  /**
   * A new date in stage `Joy` between two pawns that are on no date keeps the
   * registry invariant: no pawn ends up in two dates.
   */
  lemma StartKeepsInvariant(ds: seq<Date>, initiator: Pawn, partner: Pawn)
    requires OneDatePerPawn(ds) && NoneFinished(ds)
    requires forall i :: 0 <= i < |ds| ==> !Involves(ds[i], initiator) && !Involves(ds[i], partner)
    ensures OneDatePerPawn(ds + [Date(initiator, partner, Joy)]) && NoneFinished(ds + [Date(initiator, partner, Joy)])
  {
    var ds' := ds + [Date(initiator, partner, Joy)];
    forall i, j, p | 0 <= i < |ds'| && 0 <= j < |ds'| && Involves(ds'[i], p) && Involves(ds'[j], p)
      ensures i == j
    {
      if i < |ds| && j < |ds| {
        assert Involves(ds[i], p) && Involves(ds[j], p);
      }
    }
  }

  /** Ending the date of either pawn of a date just started takes the registry back to where it was. */
  lemma {:induction false} EndUndoesStart(ds: seq<Date>, initiator: Pawn, partner: Pawn, p: Pawn)
    requires p == initiator || p == partner
    requires forall i :: 0 <= i < |ds| ==> !Involves(ds[i], p)
    ensures RemoveInvolving(ds + [Date(initiator, partner, Joy)], p) == ds
  {
    var d := Date(initiator, partner, Joy);
    if ds == [] {
      assert [d][1..] == [];
    } else {
      assert (ds + [d])[1..] == ds[1..] + [d];
      EndUndoesStart(ds[1..], initiator, partner, p);
    }
  }

  /** The dating registry; a single instance stands for the static class. */
  class DatingManager {
    var dates: seq<Date>

    ghost predicate Valid()
      reads this
    {
      OneDatePerPawn(dates) && NoneFinished(dates)
    }

    constructor ()
      ensures dates == [] && Valid()
    {
      dates := [];
    }

    /** The first date in list order that involves `pawn`, or none. */
    function GetDateWith(pawn: Pawn): (r: Option<Date>)
      reads this
      ensures r.None? <==> forall i :: 0 <= i < |dates| ==> !Involves(dates[i], pawn)
      ensures r.Some? ==> exists k :: 0 <= k < |dates| && dates[k] == r.value && Involves(dates[k], pawn)
                                      && forall j :: 0 <= j < k ==> !Involves(dates[j], pawn)
    {
      var k := FirstIndex(dates, pawn);
      if k < |dates| then Some(dates[k]) else None
    }

    function IsOnDate(pawn: Pawn): (b: bool)
      reads this
      ensures b <==> exists i :: 0 <= i < |dates| && Involves(dates[i], pawn)
    {
      GetDateWith(pawn) != None
    }

    /** The other pawn of `pawn`'s date (the pawn itself when it dates itself), or none. */
    function GetPartnerOnDateWith(pawn: Pawn): (r: Option<Pawn>)
      reads this
      ensures r.None? <==> !IsOnDate(pawn)
      ensures r.Some? ==> GetDateWith(pawn).Some?
                          && {GetDateWith(pawn).value.initiator, GetDateWith(pawn).value.partner} == {pawn, r.value}
      ensures r.Some? && Valid() ==>
                forall i :: 0 <= i < |dates| && Involves(dates[i], pawn) ==> {dates[i].initiator, dates[i].partner} == {pawn, r.value}
    {
      var date := GetDateWith(pawn);
      if date.Some? then
        Some(if date.value.initiator == pawn then date.value.partner else date.value.initiator)
      else
        None
    }

    /** The initiator of `pawn`'s date, or none. */
    function GetInitiatorOfDateWith(pawn: Pawn): (r: Option<Pawn>)
      reads this
      ensures r.None? <==> !IsOnDate(pawn)
      ensures r.Some? ==> GetDateWith(pawn).Some? && r.value == GetDateWith(pawn).value.initiator
      ensures r.Some? ==> exists i :: 0 <= i < |dates| && Involves(dates[i], pawn) && dates[i].initiator == r.value
      ensures r.Some? && Valid() ==> forall i :: 0 <= i < |dates| && Involves(dates[i], pawn) ==> dates[i].initiator == r.value
    {
      var date := GetDateWith(pawn);
      if date.Some? then Some(date.value.initiator) else None
    }

    /** Starts a date, in stage `Joy`, unless one of the pawns is already on a date. */
    method StartDate(initiator: Pawn, partner: Pawn)
      modifies this
      ensures !old(IsOnDate(initiator)) && !old(IsOnDate(partner)) ==> dates == old(dates) + [Date(initiator, partner, Joy)]
      ensures old(IsOnDate(initiator)) || old(IsOnDate(partner)) ==> dates == old(dates)
      ensures old(Valid()) ==> Valid()
    {
      if !IsOnDate(initiator) && !IsOnDate(partner) {
        if Valid() {
          StartKeepsInvariant(dates, initiator, partner);
        }
        dates := dates + [Date(initiator, partner, Joy)];
      }
    }

    /** Ends `pawn`'s date: removes every date that involves `pawn`, if there is one. */
    method EndDate(pawn: Pawn)
      modifies this
      ensures !old(IsOnDate(pawn)) ==> dates == old(dates)
      ensures old(IsOnDate(pawn)) ==> dates == RemoveInvolving(old(dates), pawn)
      ensures !IsOnDate(pawn)
      ensures old(Valid()) ==> Valid()
    {
      var date := GetDateWith(pawn);
      if date.Some? {
        if Valid() {
          RemoveKeepsInvariant(dates, pawn);
        }
        dates := RemoveInvolving(dates, pawn);
      }
    }

    /**
     * Moves `pawn`'s date to its next stage. `canLovin` is the outcome of the
     * lovin' chance roll, `bedFound` whether a bed was found for the pair.
     */
    method AdvanceDateStage(pawn: Pawn, canLovin: bool, bedFound: bool)
      modifies this
      ensures var k := FirstIndex(old(dates), pawn);
              if k == |old(dates)| then dates == old(dates)
              else match old(dates)[k].stage
                case Joy =>
                  if !canLovin then dates == old(dates)
                  else if bedFound then dates == old(dates)[k := old(dates)[k].(stage := Lovin)]
                  else dates == RemoveInvolving(old(dates), pawn)
                case Lovin => dates == RemoveInvolving(old(dates), pawn)
                case Finished => dates == old(dates)
      ensures old(Valid()) ==> Valid()
    {
      var date := GetDateWith(pawn);
      if date.Some? {
        ghost var was := dates;
        var k := FirstIndex(dates, pawn);  // where the date sits in the list
        if date.value.stage == Joy {
          if canLovin {
            if Valid() {
              RestageKeepsInvariant(dates, k, Lovin);
            }
            dates := dates[k := date.value.(stage := Lovin)];
            if !bedFound {
              RemoveIgnoresStage(was, k, Lovin, pawn);
              FinishAndEnd(k, pawn);
              return;
            }
          }
        } else if date.value.stage == Lovin {
          FinishAndEnd(k, pawn);
        }
      }
    }

    /** The last stage of a date: `pawn`'s date, at position `k`, is marked finished and then ended. */
    method FinishAndEnd(k: nat, pawn: Pawn)
      requires k < |dates| && Involves(dates[k], pawn)
      modifies this
      ensures dates == RemoveInvolving(old(dates), pawn)
      ensures old(Valid()) ==> Valid()
    {
      ghost var was := dates;
      RemoveIgnoresStage(was, k, Finished, pawn);
      dates := dates[k := dates[k].(stage := Finished)];
      assert Involves(dates[k], pawn);
      EndDate(pawn);
      if OneDatePerPawn(was) && NoneFinished(was) {
        RemoveKeepsInvariant(was, pawn);
      }
    }
  }
}
