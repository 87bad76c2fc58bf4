/**
 The trimming page (app_googlesheet_excel.py): every text input is stripped
 before it reaches the lifecycle engine, and the loader gives the fixed
 header to an empty read as well as to a failed one.
 */
module SheetApp {
  import opened Records
  import opened Text
  import opened Lifecycle
  import opened Store

  /** load_data: the frame always carries the fixed header; a failed or empty read has no rows. */
  function Load(f: Fetch): (fr: Frame)
    ensures fr.columns == Columns
    ensures KeyedRows(fr).Some?
    ensures f.Fetched? ==> fr.rows == f.records
    ensures f.Unavailable? ==> fr.rows == []
  {
    match f
    case Unavailable => Frame(Columns, [])
    case Fetched(rs) => if |rs| == 0 then Frame(Columns, []) else Frame(Columns, rs)
  }

  /** Register with stripped inputs: a blank or already-present stripped serial is refused. */
  function RegisterForm(t: Table, sampleType: string, sampleId: string, material: string, deliverId: string): (r: Step)
    ensures r.outcome == Success <==> !AllSpace(sampleId) && !HasSerial(t, Strip(sampleId))
    ensures r.outcome != Success ==> r == Step(t, EmptyOrDuplicate)
    ensures r.outcome == Success ==>
      && |r.table| == |t| + 1 && r.table[..|t|] == t
      && r.table[|t|].model == Strip(sampleType) && r.table[|t|].serial == Strip(sampleId)
      && r.table[|t|].partNo == Strip(material) && r.table[|t|].courier == Strip(deliverId)
      && Trimmed(r.table[|t|].model) && Trimmed(r.table[|t|].serial)
      && Trimmed(r.table[|t|].partNo) && Trimmed(r.table[|t|].courier)
      && r.table[|t|].status == InStock && NoHistory(r.table[|t|])
  {
    Register(t, Strip(sampleType), Strip(sampleId), Strip(material), Strip(deliverId))
  }

  /** Send with stripped inputs: the first row under the stripped serial goes out, if in stock. */
  function SendForm(t: Table, sid: string, client: string, sendAttach: string, now: string): (r: Step)
    ensures r.outcome == Success || r.outcome == NotFound || r.outcome == WrongStatus
    ensures |r.table| == |t|
    ensures r.outcome == NotFound <==> !HasSerial(t, Strip(sid))
    ensures r.outcome == Success <==> exists i :: IsFirstMatch(t, Strip(sid), i) && t[i].status == InStock
    ensures r.outcome != Success ==> r.table == t
    ensures forall i :: 0 <= i < |t| && !IsFirstMatch(t, Strip(sid), i) ==> r.table[i] == t[i]
    ensures r.outcome == Success ==>
      forall i :: IsFirstMatch(t, Strip(sid), i) ==>
        && SentFrom(t[i], r.table[i], Strip(client), Strip(sendAttach), now)
        && Trimmed(r.table[i].client) && Trimmed(r.table[i].sentAttachment)
  {
    Send(t, Strip(sid), Strip(client), Strip(sendAttach), now)
  }

  /** Return with stripped inputs: the first row under the stripped serial comes back, if sent out. */
  function ReturnForm(t: Table, sid: string, deliverId: string, returnAttach: string, now: string): (r: Step)
    ensures r.outcome == Success || r.outcome == NotFound || r.outcome == WrongStatus
    ensures |r.table| == |t|
    ensures r.outcome == NotFound <==> !HasSerial(t, Strip(sid))
    ensures r.outcome == Success <==> exists i :: IsFirstMatch(t, Strip(sid), i) && t[i].status == SentOut
    ensures r.outcome != Success ==> r.table == t
    ensures forall i :: 0 <= i < |t| && !IsFirstMatch(t, Strip(sid), i) ==> r.table[i] == t[i]
    ensures r.outcome == Success ==>
      forall i :: IsFirstMatch(t, Strip(sid), i) ==>
        && ReturnedFrom(t[i], r.table[i], Strip(deliverId), Strip(returnAttach), now)
        && Trimmed(r.table[i].returnCourier) && Trimmed(r.table[i].returnAttachment)
  {
    Return(t, Strip(sid), Strip(deliverId), Strip(returnAttach), now)
  }

  /** Delete with a stripped serial: with confirmation, every row under it goes. */
  function DeleteForm(t: Table, sid: string, confirm: bool): (r: Step)
    ensures r.outcome == Success || r.outcome == NotFound || r.outcome == NeedConfirm
    ensures r.outcome == Success <==> HasSerial(t, Strip(sid)) && confirm
    ensures r.outcome == NotFound <==> !HasSerial(t, Strip(sid))
    ensures r.outcome == NeedConfirm <==> HasSerial(t, Strip(sid)) && !confirm
    ensures r.outcome != Success ==> r.table == t
    ensures r.outcome == Success ==> r.table == RemoveSerial(t, Strip(sid))
    ensures r.outcome == Success ==> !HasSerial(r.table, Strip(sid)) && |r.table| < |t|
    ensures r.outcome == Success ==>
      forall x :: multiset(r.table)[x] == if x.serial == Strip(sid) then 0 else multiset(t)[x]
  {
    RemoveSerialContents(t, Strip(sid));
    Delete(t, Strip(sid), confirm)
  }

  /** One menu action as this page applies it. */
  function ApplyForm(t: Table, a: Action, now: string): Step {
    match a
    case RegisterAction(m, s, p, c) => RegisterForm(t, m, s, p, c)
    case SendAction(s, c, at) => SendForm(t, s, c, at, now)
    case ReturnAction(s, c, at) => ReturnForm(t, s, c, at, now)
    case DeleteAction(s, ok) => DeleteForm(t, s, ok)
  }

  /** An action with every text field stripped, as this page hands it to the engine. */
  function Stripped(a: Action): Action {
    match a
    case RegisterAction(m, s, p, c) => RegisterAction(Strip(m), Strip(s), Strip(p), Strip(c))
    case SendAction(s, c, at) => SendAction(Strip(s), Strip(c), Strip(at))
    case ReturnAction(s, c, at) => ReturnAction(Strip(s), Strip(c), Strip(at))
    case DeleteAction(s, ok) => DeleteAction(Strip(s), ok)
  }

  /** This page is the plain engine run on stripped inputs. */
  lemma ApplyFormIsApplyStripped(t: Table, a: Action, now: string)
    ensures ApplyForm(t, a, now) == Apply(t, Stripped(a), now)
  {
  }

  /** Submitting inputs that are already stripped gives the same result as the raw inputs. */
  lemma ApplyFormStrippedAlike(t: Table, a: Action, now: string)
    ensures ApplyForm(t, Stripped(a), now) == ApplyForm(t, a, now)
  {
    match a
    case RegisterAction(m, s, p, c) =>
      StripIdempotent(m); StripIdempotent(s); StripIdempotent(p); StripIdempotent(c);
      ApplyFormIsApplyStripped(t, a, now);
      ApplyFormIsApplyStripped(t, Stripped(a), now);
    case SendAction(s, c, at) =>
      StripIdempotent(s); StripIdempotent(c); StripIdempotent(at);
    case ReturnAction(s, c, at) =>
      StripIdempotent(s); StripIdempotent(c); StripIdempotent(at);
    case DeleteAction(s, ok) =>
      StripIdempotent(s);
  }

  /** No form introduces a duplicate serial: the stripped serial is what the register guard checks. */
  lemma ApplyFormKeepsUnique(t: Table, a: Action, now: string)
    requires UniqueSerials(t)
    ensures UniqueSerials(ApplyForm(t, a, now).table)
  {
    ApplyFormIsApplyStripped(t, a, now);
    ApplyKeepsUnique(t, Stripped(a), now);
  }

  /** With a non-blank clock, every form keeps every row's status and timestamps consistent. */
  lemma ApplyFormKeepsConsistent(t: Table, a: Action, now: string)
    requires AllConsistent(t)
    requires now != ""
    ensures AllConsistent(ApplyForm(t, a, now).table)
  {
    ApplyFormIsApplyStripped(t, a, now);
    ApplyKeepsConsistent(t, Stripped(a), now);
  }

  /** One button press: reload, apply the action and write the table back on success. */
  function Handle(f: Fetch, a: Action, now: string): (r: Response)
    ensures r.outcome == ApplyForm(Load(f).rows, a, now).outcome
    ensures r.written.Some? <==> r.outcome == Success
    ensures r.written.Some? ==> |r.written.value| > 0 && r.written.value[0] == Columns
    ensures r.written.Some? ==> Load(Fetched(ReadRecords(r.written.value))).rows == ApplyForm(Load(f).rows, a, now).table
  {
    Commit(ApplyForm(Load(f).rows, a, now))
  }

  /** Every table, empty or not, survives a save and a reload unchanged. */
  lemma RoundTrip(t: Table)
    ensures Load(Fetched(ReadRecords(Save(t)))) == Frame(Columns, t)
  {
  }

  /** A confirmed delete of the only sample, by its own (trimmed) serial, empties the table. */
  lemma DeleteOnlyRow(x: Record)
    requires Trimmed(x.serial)
    ensures DeleteForm([x], x.serial, true) == Step([], Success)
  {
    StripPadded("", x.serial, "");
    assert "" + x.serial + "" == x.serial;
    assert HasSerial([x], x.serial) by {
      assert [x][0].serial == x.serial;
    }
    assert RemoveSerial([x], x.serial) == [];
  }

  /** An empty read still accepts a registration with a non-blank serial. */
  lemma RegisterIntoEmptySheet(model: string, sampleId: string, partNo: string, courier: string, now: string)
    requires !AllSpace(sampleId)
    ensures Handle(Fetched([]), RegisterAction(model, sampleId, partNo, courier), now).outcome == Success
  {
    assert Load(Fetched([])).rows == [];
  }

  /**
   Deleting the only sample leaves a header-only sheet, and the next page load
   still registers a sample into it.
   */
  lemma DeletingLastSampleKeepsPage(x: Record, now: string, later: string,
                                    model: string, sampleId: string, partNo: string, courier: string)
    requires Trimmed(x.serial)
    requires !AllSpace(sampleId)
    ensures Handle(Fetched([x]), DeleteAction(x.serial, true), now) == Response(Some(Save([])), Success)
    ensures Handle(Fetched(ReadRecords(Save([]))), RegisterAction(model, sampleId, partNo, courier), later).outcome == Success
  {
    DeleteOnlyRow(x);
    assert Load(Fetched([x])).rows == [x];
    assert ApplyForm([x], DeleteAction(x.serial, true), now) == Step([], Success);
    assert ReadRecords(Save([])) == [];
    RegisterIntoEmptySheet(model, sampleId, partNo, courier, later);
  }

  /** Whitespace around a typed serial does not change which row any action finds. */
  lemma PaddedSerialActsAlike(t: Table, pre: string, key: string, post: string,
                              text1: string, text2: string, text3: string, now: string, confirm: bool)
    requires AllSpace(pre) && AllSpace(post) && Trimmed(key)
    ensures RegisterForm(t, text1, pre + key + post, text2, text3) == RegisterForm(t, text1, key, text2, text3)
    ensures SendForm(t, pre + key + post, text1, text2, now) == SendForm(t, key, text1, text2, now)
    ensures ReturnForm(t, pre + key + post, text1, text2, now) == ReturnForm(t, key, text1, text2, now)
    ensures DeleteForm(t, pre + key + post, confirm) == DeleteForm(t, key, confirm)
  {
    StripPadded(pre, key, post);
    StripPadded("", key, "");
    assert "" + key + "" == key;
  }

  predicate AllSerialsTrimmed(t: Table) {
    forall i :: 0 <= i < |t| ==> Trimmed(t[i].serial)
  }

  lemma RegisterFormKeepsSerialsTrimmed(t: Table, m: string, s: string, p: string, c: string)
    requires AllSerialsTrimmed(t)
    ensures AllSerialsTrimmed(RegisterForm(t, m, s, p, c).table)
  {
    var key := Strip(s);
    var a := RegisterAction(Strip(m), key, Strip(p), Strip(c));
    ApplySerialsFrom(t, a, "");
    var d := Apply(t, a, "").table;
    forall i | 0 <= i < |d| ensures Trimmed(d[i].serial) {
      if d[i].serial != key {
        var k :| 0 <= k < |t| && t[k].serial == d[i].serial;
      }
    }
  }

  lemma DeleteFormKeepsSerialsTrimmed(t: Table, s: string, ok: bool)
    requires AllSerialsTrimmed(t)
    ensures AllSerialsTrimmed(DeleteForm(t, s, ok).table)
  {
  }

  /** Serials entered through this page never carry surrounding whitespace. */
  lemma ApplyFormKeepsSerialsTrimmed(t: Table, a: Action, now: string)
    requires AllSerialsTrimmed(t)
    ensures AllSerialsTrimmed(ApplyForm(t, a, now).table)
  {
    match a
    case RegisterAction(m, s, p, c) =>
      RegisterFormKeepsSerialsTrimmed(t, m, s, p, c);
    case SendAction(s, c, at) =>
      SendReturnKeepSerials(t, Strip(s), Strip(c), Strip(at), now);
    case ReturnAction(s, c, at) =>
      SendReturnKeepSerials(t, Strip(s), Strip(c), Strip(at), now);
    case DeleteAction(s, ok) =>
      DeleteFormKeepsSerialsTrimmed(t, s, ok);
  }
}
