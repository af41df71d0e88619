/** The report page's card script: one card at a time is active, its arrows step a temporary
    hour count that never goes below zero, a second click on it saves the count through the
    update endpoint, and clicking another card abandons the edit. */
module HoursStepper {
  import opened Base
  import opened Strings
  import opened Numbers
  import opened Schema
  import opened ReportUpdate

  /** The form the save posts: the card's id, the count as decimal text, and the card's
      description text trimmed ('' when the card shows none). */
  function SaveRequest(id: string, horas: nat, desc: string): (req: UpdateRequest)
    ensures req.id == Some(id) && req.nota.None?
    ensures req.horas.Some? && IntVal(req.horas.value) == horas
    ensures req.descripcion == Some(JsTrim(desc))
  {
    IntValOfDecimal(horas);
    UpdateRequest(Some(id), Some(NatToString(horas)), Some(JsTrim(desc)), None)
  }

  /** The server accepts every count the script can send: the hours check passes, and the
      stored hours are exactly the count. Only a blank id is refused. */
  lemma SaveRequestAccepted(id: string, horas: nat, desc: string)
    requires PhpTrim(id) != ""
    ensures Check(SaveRequest(id, horas, desc)).Ok?
    ensures Check(SaveRequest(id, horas, desc)).value.horas == horas
    ensures Check(SaveRequest(id, horas, desc)).value.descripcion == Some(PhpTrim(JsTrim(desc)))
  {
    var req := SaveRequest(id, horas, desc);
    var r := Check(req);
    assert req.id.GetOr("") == id;
    assert r != Err(MissingId) && r != Err(InvalidHours);
    assert r.Ok?;
  }

  /** The description the card shows: the stored one when it is non-empty in PHP's sense. */
  function ShownDescription(r: Report): (d: string)
    ensures Truthy(r.descripcion) ==> d == r.descripcion
    ensures !Truthy(r.descripcion) ==> d == ""
  {
    if Truthy(r.descripcion) then r.descripcion else ""
  }

  /** A save the script has posted and whose answer has not arrived: the card it was sent
      for and the count it carries. */
  datatype Pending = Pending(card: nat, horas: nat)

  class Stepper {
    /** Per card: its id, the description text it shows, `dataset.horas`, the text of its
        hours span, and whether it has the `adeuda` class (else `pagado`). */
    const ids: seq<string>
    const descs: seq<string>
    var horas: seq<int>
    var shown: seq<int>
    var adeuda: seq<bool>
    /** `tarjetaActiva` as a card index, and `horasTemp`. */
    var active: Option<nat>
    var horasTemp: int
    /** The saves posted and not yet answered, in the order they were sent. */
    var pending: seq<Pending>

    predicate Valid()
      reads this
    {
      && |descs| == |ids| && |horas| == |ids| && |shown| == |ids| && |adeuda| == |ids|
      && (active.Some? ==> active.value < |ids|)
      && horasTemp >= 0
      && (forall k :: 0 <= k < |horas| ==> horas[k] >= 0)
      && (forall k :: 0 <= k < |shown| ==> shown[k] >= 0)
      && (forall k :: 0 <= k < |adeuda| ==> adeuda[k] == (horas[k] > 0))
      && (forall k :: 0 <= k < |pending| ==> pending[k].card < |ids|)
      && (active.None? ==> horasTemp == 0)
    }

    /** What the page shows agrees with what the script holds: every card that is not being
        edited shows its stored hours, and the card being edited shows `horasTemp`. */
    predicate Consistent()
      reads this
    {
      && (forall k :: 0 <= k < |shown| && k < |horas| && active != Some(k) ==> shown[k] == horas[k])
      && (active.Some? && active.value < |shown| ==> shown[active.value] == horasTemp)
    }

    /** The cards the page rendered, in display order. */
    constructor (cards: seq<Report>)
      requires forall k :: 0 <= k < |cards| ==> cards[k].horas >= 0
      ensures Valid() && Consistent() && active.None? && pending == []
      ensures |ids| == |cards|
      ensures forall k :: 0 <= k < |cards| ==> (ids[k] == cards[k].id && descs[k] == ShownDescription(cards[k])
        && horas[k] == cards[k].horas && shown[k] == cards[k].horas
        && adeuda[k] == (EstadoClase(cards[k].horas) == "adeuda"))
    {
      ids := seq(|cards|, k requires 0 <= k < |cards| => cards[k].id);
      descs := seq(|cards|, k requires 0 <= k < |cards| => ShownDescription(cards[k]));
      horas := seq(|cards|, k requires 0 <= k < |cards| => cards[k].horas);
      shown := seq(|cards|, k requires 0 <= k < |cards| => cards[k].horas);
      adeuda := seq(|cards|, k requires 0 <= k < |cards| => cards[k].horas > 0);
      active := None;
      horasTemp := 0;
      pending := [];
    }

    /** An arrow of card k (click, or ArrowUp/ArrowDown on the focused card): only the active
        card reacts; down stops at zero. */
    method Arrow(k: nat, up: bool)
      requires Valid() && k < |ids|
      modifies this
      ensures Valid() && (old(Consistent()) ==> Consistent())
      ensures horas == old(horas) && adeuda == old(adeuda) && active == old(active) && pending == old(pending)
      ensures old(active) != Some(k) ==> horasTemp == old(horasTemp) && shown == old(shown)
      ensures old(active) == Some(k) ==> horasTemp == (if up then old(horasTemp) + 1
                                                       else if old(horasTemp) > 0 then old(horasTemp) - 1 else 0)
      ensures old(active) == Some(k) ==> shown == old(shown)[k := horasTemp]
    {
      if active != Some(k) {
        return;
      }
      horasTemp := if up then horasTemp + 1 else if horasTemp - 1 > 0 then horasTemp - 1 else 0;
      shown := shown[k := horasTemp];
    }

    /** A click on card k (or Enter/Space on it). With no active card it becomes active and
        `horasTemp` takes its stored hours; its span is left as it is. A click on the active
        card posts its count (`req`) and leaves the card active until the answer arrives. A
        click on another card restores the abandoned card's span and makes k active. */
    method Click(k: nat) returns (req: Option<UpdateRequest>)
      requires Valid() && k < |ids|
      modifies this
      ensures Valid() && (old(Consistent()) ==> Consistent())
      ensures old(active).None? ==> (req.None? && active == Some(k) && horasTemp == horas[k] && pending == old(pending)
        && horas == old(horas) && adeuda == old(adeuda) && shown == old(shown))
      ensures old(active) == Some(k) ==> (req == Some(SaveRequest(ids[k], old(horasTemp), descs[k]))
        && pending == old(pending) + [Pending(k, old(horasTemp))]
        && active == old(active) && horasTemp == old(horasTemp)
        && horas == old(horas) && adeuda == old(adeuda) && shown == old(shown))
      ensures old(active).Some? && old(active) != Some(k) ==> (req.None? && active == Some(k)
        && horasTemp == horas[k] && horas == old(horas) && adeuda == old(adeuda) && pending == old(pending)
        && shown == old(shown)[old(active).value := horas[old(active).value]])
    {
      if active == Some(k) {
        req := Save(k);
      } else {
        req := None;
        Activate(k);
      }
    }

    /** Card k becomes the active card and `horasTemp` takes its stored hours; only the span
        of a card that was active is rewritten, to that card's stored hours. */
    method Activate(k: nat)
      requires Valid() && k < |ids| && active != Some(k)
      modifies this
      ensures Valid() && (old(Consistent()) ==> Consistent())
      ensures active == Some(k) && horasTemp == horas[k] && horas == old(horas) && adeuda == old(adeuda)
      ensures pending == old(pending)
      ensures old(active).None? ==> shown == old(shown)
      ensures old(active).Some? ==> shown == old(shown)[old(active).value := horas[old(active).value]]
    {
      if active.Some? {
        var prev := active.value;
        shown := shown[prev := horas[prev]];
      }
      active := Some(k);
      horasTemp := horas[k];
    }

    /** The second click on the active card k: the form carries the count as it is now, and
        the save waits for its answer; nothing on the page changes yet. */
    method Save(k: nat) returns (req: Option<UpdateRequest>)
      requires Valid() && active == Some(k)
      modifies this
      ensures Valid() && (old(Consistent()) ==> Consistent())
      ensures req == Some(SaveRequest(ids[k], old(horasTemp), descs[k]))
      ensures pending == old(pending) + [Pending(k, old(horasTemp))]
      ensures active == old(active) && horasTemp == old(horasTemp)
      ensures horas == old(horas) && adeuda == old(adeuda) && shown == old(shown)
    {
      var n: nat := horasTemp;
      req := Some(SaveRequest(ids[k], n, descs[k]));
      pending := pending + [Pending(k, n)];
    }

    /** The answer to pending save i arrives, `ok` being the endpoint's verdict (a network
        error counts as a failure). The save is no longer pending. On success the card it was
        sent for takes the count in its data, its span and its class, and then the edit of
        whichever card is active at that moment ends. */
    method Resolve(i: nat, ok: bool)
      requires Valid() && i < |pending|
      modifies this
      ensures Valid()
      ensures pending == old(pending[..i] + pending[i + 1..])
      ensures !ok ==> (horas == old(horas) && adeuda == old(adeuda) && shown == old(shown)
        && active == old(active) && horasTemp == old(horasTemp))
      ensures ok ==> (horas == old(horas)[old(pending[i].card) := old(pending[i].horas)]
        && adeuda == old(adeuda)[old(pending[i].card) := old(pending[i].horas) > 0]
        && shown == old(shown)[old(pending[i].card) := old(pending[i].horas)]
        && active.None? && horasTemp == 0)
    {
      var p := pending[i];
      pending := pending[..i] + pending[i + 1..];
      if ok {
        horas := horas[p.card := p.horas];
        adeuda := adeuda[p.card := p.horas > 0];
        shown := shown[p.card := p.horas];
        active := None;
        horasTemp := 0;
      }
    }

    /** The corrected answer: the edit ends only when the saved card is still the active
        one, so no card is left showing a count it does not store. */
    method ResolveIntended(i: nat, ok: bool)
      requires Valid() && i < |pending|
      modifies this
      ensures Valid() && (old(Consistent()) ==> Consistent())
      ensures pending == old(pending[..i] + pending[i + 1..])
      ensures !ok ==> (horas == old(horas) && adeuda == old(adeuda) && shown == old(shown)
        && active == old(active) && horasTemp == old(horasTemp))
      ensures ok ==> (horas == old(horas)[old(pending[i].card) := old(pending[i].horas)]
        && adeuda == old(adeuda)[old(pending[i].card) := old(pending[i].horas) > 0])
      ensures ok && old(active) == Some(old(pending[i].card)) ==> (active.None? && horasTemp == 0
        && shown == old(shown)[old(pending[i].card) := old(pending[i].horas)])
      ensures ok && old(active) != Some(old(pending[i].card)) ==> (active == old(active)
        && horasTemp == old(horasTemp) && shown == old(shown)[old(pending[i].card) := old(pending[i].horas)])
    {
      var p := pending[i];
      pending := pending[..i] + pending[i + 1..];
      if ok {
        horas := horas[p.card := p.horas];
        adeuda := adeuda[p.card := p.horas > 0];
        shown := shown[p.card := p.horas];
        if active == Some(p.card) {
          active := None;
          horasTemp := 0;
        }
      }
    }
  }

  /** Two settled cards, each with 0 hours. */
  function TwoCards(): (cards: seq<Report>)
    ensures |cards| == 2 && cards[0].horas == 0 && cards[1].horas == 0
  {
    [Report("1", None, None, "", "", 0, None, None, None, 0, 0),
     Report("2", None, None, "", "", 0, None, None, None, 0, 0)]
  }

  /** As written, an answer that arrives after the user moved on ends the other card's edit:
      save card 0, switch to card 1, raise it by one, and let save 0 succeed. Card 1 is no
      longer active but its span shows 1 while it stores 0. */
  method StaleSpanAfterLateAnswer() returns (s: Stepper)
    ensures s.Valid() && |s.ids| == 2
    ensures s.active.None? && s.shown[1] == 1 && s.horas[1] == 0
  {
    s := new Stepper(TwoCards());
    s.Activate(0);
    var req := s.Save(0);
    assert s.pending == [Pending(0, 0)];
    s.Activate(1);
    assert s.horas[1] == 0 && s.horasTemp == 0;
    s.Arrow(1, true);
    assert s.shown[1] == 1 && s.horas[1] == 0 && s.pending[0].card == 0;
    s.Resolve(0, true);
  }

  /** With the corrected answer the same clicks leave card 1 in edit with its raised count,
      and every other card shows what it stores. */
  method LateAnswerKeepsEdit() returns (s: Stepper)
    ensures s.Valid() && |s.ids| == 2 && s.Consistent()
    ensures s.active == Some(1) && s.shown[1] == 1 && s.horas[1] == 0
  {
    s := new Stepper(TwoCards());
    s.Activate(0);
    var req := s.Save(0);
    assert s.pending == [Pending(0, 0)];
    s.Activate(1);
    assert s.horas[1] == 0 && s.horasTemp == 0;
    s.Arrow(1, true);
    assert s.shown[1] == 1 && s.horas[1] == 0 && s.pending[0].card == 0;
    s.ResolveIntended(0, true);
  }

  /** As written, a card left showing a count it does not store keeps showing it when it is
      clicked again, and a second click posts the stored count, not the one on screen. */
  method StaleCardPostsStoredCount(s: Stepper, k: nat) returns (req: Option<UpdateRequest>)
    requires s.Valid() && k < |s.ids| && s.active.None? && s.shown[k] != s.horas[k]
    modifies s
    ensures s.Valid() && s.horas == old(s.horas) && s.pending == old(s.pending) + [Pending(k, s.horas[k])]
    ensures req == Some(SaveRequest(s.ids[k], s.horas[k], s.descs[k]))
    ensures s.active == Some(k) && s.shown[k] == old(s.shown[k]) && s.shown[k] != s.horasTemp
  {
    var first := s.Click(k);
    req := s.Click(k);
  }
}
