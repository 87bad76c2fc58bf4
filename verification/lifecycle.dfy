/**
 The sample lifecycle engine: the four guarded transitions (register, send,
 return, delete) that each menu branch applies to the in-memory table before
 the whole table is written back. Each transition is a pure function of the
 table, the form inputs and the clock reading `now`, and returns the new table
 together with the outcome the page reports.
 */
module Lifecycle {
  import opened Records

  datatype Outcome = Success | NotFound | WrongStatus | EmptyOrDuplicate | NeedConfirm

  datatype Step = Step(table: Table, outcome: Outcome)

  /** Index of the first row whose serial is `key`, if any. */
  function FirstMatch(t: Table, key: string): (r: Option<nat>)
    ensures r.None? <==> !HasSerial(t, key)
    ensures r.Some? ==> IsFirstMatch(t, key, r.value)
  {
    if |t| == 0 then None
    else if t[0].serial == key then Some(0)
    else
      match FirstMatch(t[1..], key)
      case None =>
        assert forall i :: 1 <= i < |t| ==> t[i] == t[1..][i - 1];
        None
      case Some(i) =>
        assert forall j :: 1 <= j <= i ==> t[j] == t[1..][j - 1];
        Some(i + 1)
  }

  /** The row appended by a successful registration. */
  function NewRecord(model: string, serial: string, partNo: string, courier: string): Record {
    Record(model, serial, partNo, courier, InStock, "", "", "", "", "", "")
  }

  /** Register (登记): append a fresh in-stock row unless the serial is empty or taken. */
  function Register(t: Table, model: string, serial: string, partNo: string, courier: string): (r: Step)
    ensures r.outcome == Success <==> serial != "" && !HasSerial(t, serial)
    ensures r.outcome != Success ==> r.outcome == EmptyOrDuplicate && r.table == t
    ensures r.outcome == Success ==>
      && |r.table| == |t| + 1
      && r.table[..|t|] == t
      && r.table[|t|].model == model && r.table[|t|].serial == serial
      && r.table[|t|].partNo == partNo && r.table[|t|].courier == courier
      && r.table[|t|].status == InStock
      && NoHistory(r.table[|t|])
  {
    if serial != "" && !HasSerial(t, serial) then
      Step(t + [NewRecord(model, serial, partNo, courier)], Success)
    else
      Step(t, EmptyOrDuplicate)
  }

  /**
   `y` is `x` after a send to `client`: the item fields are kept, the status is
   送出, the send fields are stamped and the three return fields are cleared.
   */
  predicate SentFrom(x: Record, y: Record, client: string, attachment: string, now: string) {
    && SameItem(x, y)
    && y.status == SentOut
    && y.sentAt == now && y.client == client && y.sentAttachment == attachment
    && y.receivedAt == "" && y.returnCourier == "" && y.returnAttachment == ""
  }

  /**
   `y` is `x` after a return: the item fields and the send fields are kept,
   the status is 在库 and the return fields are stamped.
   */
  predicate ReturnedFrom(x: Record, y: Record, courier: string, attachment: string, now: string) {
    && SameItem(x, y)
    && y.status == InStock
    && y.sentAt == x.sentAt && y.client == x.client && y.sentAttachment == x.sentAttachment
    && y.receivedAt == now && y.returnCourier == courier && y.returnAttachment == attachment
  }

  /** Send (送出): the first row with the serial, if in stock, goes out to `client`. */
  function Send(t: Table, serial: string, client: string, attachment: string, now: string): (r: Step)
    ensures |r.table| == |t|
    ensures r.outcome == Success || r.outcome == NotFound || r.outcome == WrongStatus
    ensures r.outcome == NotFound <==> !HasSerial(t, serial)
    ensures r.outcome == Success <==> exists i :: IsFirstMatch(t, serial, i) && t[i].status == InStock
    ensures r.outcome != Success ==> r.table == t
    ensures forall i :: 0 <= i < |t| && !IsFirstMatch(t, serial, i) ==> r.table[i] == t[i]
    ensures r.outcome == Success ==>
      forall i :: IsFirstMatch(t, serial, i) ==> SentFrom(t[i], r.table[i], client, attachment, now)
  {
    match FirstMatch(t, serial)
    case None => Step(t, NotFound)
    case Some(i) =>
      if t[i].status == InStock then
        var y := t[i].(status := SentOut, sentAt := now, client := client, sentAttachment := attachment,
                       receivedAt := "", returnCourier := "", returnAttachment := "");
        Step(t[i := y], Success)
      else
        Step(t, WrongStatus)
  }

  /** Return (归还): the first row with the serial, if sent out, comes back in stock. */
  function Return(t: Table, serial: string, courier: string, attachment: string, now: string): (r: Step)
    ensures |r.table| == |t|
    ensures r.outcome == Success || r.outcome == NotFound || r.outcome == WrongStatus
    ensures r.outcome == NotFound <==> !HasSerial(t, serial)
    ensures r.outcome == Success <==> exists i :: IsFirstMatch(t, serial, i) && t[i].status == SentOut
    ensures r.outcome != Success ==> r.table == t
    ensures forall i :: 0 <= i < |t| && !IsFirstMatch(t, serial, i) ==> r.table[i] == t[i]
    ensures r.outcome == Success ==>
      forall i :: IsFirstMatch(t, serial, i) ==> ReturnedFrom(t[i], r.table[i], courier, attachment, now)
  {
    match FirstMatch(t, serial)
    case None => Step(t, NotFound)
    case Some(i) =>
      if t[i].status == SentOut then
        var y := t[i].(status := InStock, receivedAt := now, returnCourier := courier,
                       returnAttachment := attachment);
        Step(t[i := y], Success)
      else
        Step(t, WrongStatus)
  }

  /** `t` without every row whose serial is `key`, in the original order. */
  function RemoveSerial(t: Table, key: string): (r: Table)
    ensures |r| <= |t|
    ensures !HasSerial(r, key)
  {
    if |t| == 0 then []
    else
      var rest := RemoveSerial(t[1..], key);
      if t[0].serial == key then rest
      else
        var r := [t[0]] + rest;
        assert !HasSerial(r, key) by {
          forall i | 0 <= i < |r| ensures r[i].serial != key {
            if i > 0 {
              assert r[i] == rest[i - 1];
            }
          }
        }
        r
  }

  /** The filter keeps every row without the key as often as it occurred, and nothing else. */
  lemma {:induction false} RemoveSerialContents(t: Table, key: string)
    ensures forall x :: multiset(RemoveSerial(t, key))[x] == if x.serial == key then 0 else multiset(t)[x]
    decreases |t|
  {
    if |t| > 0 {
      RemoveSerialContents(t[1..], key);
      assert t == [t[0]] + t[1..];
      assert multiset(t) == multiset{t[0]} + multiset(t[1..]);
      var rest := RemoveSerial(t[1..], key);
      if t[0].serial != key {
        assert multiset([t[0]] + rest) == multiset{t[0]} + multiset(rest);
      }
    }
  }

  /** A present key removes at least one row. */
  lemma RemoveSerialShrinks(t: Table, key: string)
    requires HasSerial(t, key)
    ensures |RemoveSerial(t, key)| < |t|
  {
    var i :| 0 <= i < |t| && t[i].serial == key;
    RemoveSerialContents(t, key);
    var r := RemoveSerial(t, key);
    assert multiset(r)[t[i]] == 0 && multiset(t)[t[i]] > 0;
    assert multiset(r) <= multiset(t);
    var d := multiset(t) - multiset(r);
    assert multiset(t) == multiset(r) + d;
    assert t[i] in d;
  }

  /** Delete (删除): with confirmation, drop every row carrying the serial. */
  function Delete(t: Table, serial: string, confirmed: bool): (r: Step)
    ensures r.outcome == Success || r.outcome == NotFound || r.outcome == NeedConfirm
    ensures r.outcome == NotFound <==> !HasSerial(t, serial)
    ensures r.outcome == NeedConfirm <==> HasSerial(t, serial) && !confirmed
    ensures r.outcome != Success ==> r.table == t
    ensures r.outcome == Success ==> r.table == RemoveSerial(t, serial) && |r.table| < |t|
  {
    if HasSerial(t, serial) then
      if confirmed then
        RemoveSerialShrinks(t, serial);
        Step(RemoveSerial(t, serial), Success)
      else Step(t, NeedConfirm)
    else Step(t, NotFound)
  }

  // ---------------------------------------------------------------------------
  // Properties of single transitions

  /** Removing a serial distributes over concatenation, so the surviving rows keep their order. */
  lemma {:induction false} RemoveSerialAppend(a: Table, b: Table, key: string)
    ensures RemoveSerial(a + b, key) == RemoveSerial(a, key) + RemoveSerial(b, key)
    decreases |a|
  {
    if |a| == 0 {
      assert a + b == b;
    } else {
      assert (a + b)[0] == a[0];
      assert (a + b)[1..] == a[1..] + b;
      RemoveSerialAppend(a[1..], b, key);
    }
  }

  /** A serial that is absent removes nothing. */
  lemma {:induction false} RemoveAbsentSerial(t: Table, key: string)
    requires !HasSerial(t, key)
    ensures RemoveSerial(t, key) == t
    decreases |t|
  {
    if |t| > 0 {
      assert !HasSerial(t[1..], key) by {
        forall i | 0 <= i < |t[1..]| ensures t[1..][i].serial != key {
          assert t[1..][i] == t[i + 1];
        }
      }
      RemoveAbsentSerial(t[1..], key);
      assert t == [t[0]] + t[1..];
    }
  }

  /** In a table with unique serials, a confirmed delete removes exactly the one matching row. */
  lemma DeleteUniqueRemovesOneRow(t: Table, key: string, i: int)
    requires UniqueSerials(t)
    requires 0 <= i < |t| && t[i].serial == key
    ensures Delete(t, key, true).table == t[..i] + t[i + 1..]
  {
    assert t == t[..i] + ([t[i]] + t[i + 1..]);
    assert !HasSerial(t[..i], key) by {
      forall j | 0 <= j < i ensures t[..i][j].serial != key {
        assert t[..i][j] == t[j];
      }
    }
    var after := t[i + 1..];
    assert !HasSerial(after, key) by {
      forall j | 0 <= j < |after| ensures after[j].serial != key {
        assert after[j] == t[i + 1 + j];
      }
    }
    RemoveSerialAppend(t[..i], [t[i]] + t[i + 1..], key);
    RemoveSerialAppend([t[i]], t[i + 1..], key);
    RemoveAbsentSerial(t[..i], key);
    RemoveAbsentSerial(t[i + 1..], key);
    assert RemoveSerial([t[i]], key) == [];
  }

  /** Registering the same serial twice: the second attempt is refused and changes nothing. */
  lemma RegisterTwiceRejected(t: Table, model: string, serial: string, partNo: string, courier: string,
                              model': string, partNo': string, courier': string)
    ensures var t1 := Register(t, model, serial, partNo, courier).table;
            var r2 := Register(t1, model', serial, partNo', courier');
            r2.outcome == EmptyOrDuplicate && r2.table == t1
  {
    var r1 := Register(t, model, serial, partNo, courier);
    if r1.outcome == Success {
      assert r1.table[|t|].serial == serial;
    }
  }

  // ---------------------------------------------------------------------------
  // Invariants over any sequence of transitions

  datatype Action =
    | RegisterAction(model: string, serial: string, partNo: string, courier: string)
    | SendAction(serial: string, client: string, attachment: string)
    | ReturnAction(serial: string, courier: string, attachment: string)
    | DeleteAction(serial: string, confirmed: bool)

  /** One menu action applied at clock reading `now`. */
  function Apply(t: Table, a: Action, now: string): Step {
    match a
    case RegisterAction(m, s, p, c) => Register(t, m, s, p, c)
    case SendAction(s, c, at) => Send(t, s, c, at, now)
    case ReturnAction(s, c, at) => Return(t, s, c, at, now)
    case DeleteAction(s, ok) => Delete(t, s, ok)
  }

  /** The table after applying `actions` in turn, the k-th at clock reading `clock[k]`. */
  function Run(t: Table, actions: seq<Action>, clock: seq<string>): Table
    requires |clock| == |actions|
    decreases |actions|
  {
    if |actions| == 0 then t
    else Run(Apply(t, actions[0], clock[0]).table, actions[1..], clock[1..])
  }

  lemma UniqueCons(x: Record, s: Table)
    requires UniqueSerials(s) && !HasSerial(s, x.serial)
    ensures UniqueSerials([x] + s)
  {
  }

  lemma {:induction false} RemoveSerialKeepsUnique(t: Table, key: string)
    requires UniqueSerials(t)
    ensures UniqueSerials(RemoveSerial(t, key))
    decreases |t|
  {
    if |t| > 0 {
      var tail := t[1..];
      assert UniqueSerials(tail) by {
        forall i, j | 0 <= i < j < |tail| ensures tail[i].serial != tail[j].serial {
          assert tail[i] == t[i + 1] && tail[j] == t[j + 1];
        }
      }
      RemoveSerialKeepsUnique(tail, key);
      RemoveSerialContents(tail, key);
      var rest := RemoveSerial(tail, key);
      if t[0].serial != key {
        assert !HasSerial(rest, t[0].serial) by {
          forall j | 0 <= j < |rest| ensures rest[j].serial != t[0].serial {
            assert rest[j] in multiset(rest);
            assert rest[j] in multiset(tail);
            var k :| 0 <= k < |tail| && tail[k] == rest[j];
            assert tail[k] == t[k + 1];
          }
        }
        UniqueCons(t[0], rest);
      }
    }
  }

  /** Send and return rewrite cells of one row but never a serial. */
  lemma SendReturnKeepSerials(t: Table, serial: string, text1: string, text2: string, now: string)
    ensures forall i :: 0 <= i < |t| ==> Send(t, serial, text1, text2, now).table[i].serial == t[i].serial
    ensures forall i :: 0 <= i < |t| ==> Return(t, serial, text1, text2, now).table[i].serial == t[i].serial
  {
    var r1 := Send(t, serial, text1, text2, now);
    var r2 := Return(t, serial, text1, text2, now);
    forall i | 0 <= i < |t| ensures r1.table[i].serial == t[i].serial && r2.table[i].serial == t[i].serial {
      if IsFirstMatch(t, serial, i) {
        if r1.outcome == Success {
          assert SentFrom(t[i], r1.table[i], text1, text2, now);
        }
        if r2.outcome == Success {
          assert ReturnedFrom(t[i], r2.table[i], text1, text2, now);
        }
      }
    }
  }

  /** Every row left by a delete was a row of the table before. */
  lemma DeleteKeepsRows(t: Table, serial: string, confirmed: bool)
    ensures forall i :: 0 <= i < |Delete(t, serial, confirmed).table| ==> Delete(t, serial, confirmed).table[i] in t
  {
    var d := Delete(t, serial, confirmed).table;
    RemoveSerialContents(t, serial);
    forall i | 0 <= i < |d| ensures d[i] in t {
      assert d[i] in multiset(d);
    }
  }

  /**
   No action invents a serial: every row afterwards carries a serial that was
   already in the table, or the one a successful registration added.
   */
  lemma ApplySerialsFrom(t: Table, a: Action, now: string)
    ensures var r := Apply(t, a, now);
            forall i :: 0 <= i < |r.table| ==> HasSerial(t, r.table[i].serial) || (a.RegisterAction? && r.table[i].serial == a.serial)
  {
    var r := Apply(t, a, now);
    match a
    case RegisterAction(m, s, p, c) =>
      forall i | 0 <= i < |r.table| ensures HasSerial(t, r.table[i].serial) || r.table[i].serial == s {
        if i < |t| {
          if r.outcome == Success {
            assert r.table[i] == r.table[..|t|][i];
          }
          assert r.table[i].serial == t[i].serial;
        }
      }
    case SendAction(s, c, at) =>
      SendReturnKeepSerials(t, s, c, at, now);
      forall i | 0 <= i < |r.table| ensures HasSerial(t, r.table[i].serial) {
        assert r.table[i].serial == t[i].serial;
      }
    case ReturnAction(s, c, at) =>
      SendReturnKeepSerials(t, s, c, at, now);
      forall i | 0 <= i < |r.table| ensures HasSerial(t, r.table[i].serial) {
        assert r.table[i].serial == t[i].serial;
      }
    case DeleteAction(s, ok) =>
      DeleteKeepsRows(t, s, ok);
      forall i | 0 <= i < |r.table| ensures HasSerial(t, r.table[i].serial) {
        var k :| 0 <= k < |t| && t[k] == r.table[i];
      }
  }

  /** Every action keeps serial numbers unique. */
  lemma ApplyKeepsUnique(t: Table, a: Action, now: string)
    requires UniqueSerials(t)
    ensures UniqueSerials(Apply(t, a, now).table)
  {
    var r := Apply(t, a, now);
    match a
    case RegisterAction(m, s, p, c) =>
      if r.outcome == Success {
        forall i, j | 0 <= i < j < |r.table| ensures r.table[i].serial != r.table[j].serial {
          assert r.table[i] == r.table[..|t|][i];
          if j < |t| {
            assert r.table[j] == r.table[..|t|][j];
          }
        }
      }
    case SendAction(s, c, at) =>
      forall i | 0 <= i < |t| ensures r.table[i].serial == t[i].serial {
        if IsFirstMatch(t, s, i) && r.outcome == Success {
          assert SentFrom(t[i], r.table[i], c, at, now);
        }
      }
    case ReturnAction(s, c, at) =>
      forall i | 0 <= i < |t| ensures r.table[i].serial == t[i].serial {
        if IsFirstMatch(t, s, i) && r.outcome == Success {
          assert ReturnedFrom(t[i], r.table[i], c, at, now);
        }
      }
    case DeleteAction(s, ok) =>
      RemoveSerialKeepsUnique(t, s);
  }

  /** Every action keeps every row consistent, given a non-blank clock reading. */
  lemma ApplyKeepsConsistent(t: Table, a: Action, now: string)
    requires AllConsistent(t)
    requires now != ""
    ensures AllConsistent(Apply(t, a, now).table)
  {
    var r := Apply(t, a, now);
    match a
    case RegisterAction(m, s, p, c) =>
      if r.outcome == Success {
        forall i | 0 <= i < |r.table| ensures Consistent(r.table[i]) {
          if i < |t| {
            assert r.table[i] == r.table[..|t|][i];
          }
        }
      }
    case SendAction(s, c, at) =>
      forall i | 0 <= i < |t| ensures Consistent(r.table[i]) {
        if IsFirstMatch(t, s, i) && r.outcome == Success {
          assert SentFrom(t[i], r.table[i], c, at, now);
        }
      }
    case ReturnAction(s, c, at) =>
      forall i | 0 <= i < |t| ensures Consistent(r.table[i]) {
        if IsFirstMatch(t, s, i) && r.outcome == Success {
          assert t[i].status == SentOut;
          assert ReturnedFrom(t[i], r.table[i], c, at, now);
        }
      }
    case DeleteAction(s, ok) =>
      if r.outcome == Success {
        var d := RemoveSerial(t, s);
        RemoveSerialContents(t, s);
        forall i | 0 <= i < |d| ensures Consistent(d[i]) {
          assert d[i] in multiset(d);
          assert d[i] in multiset(t);
        }
      }
  }

  /** Unique serials and consistent rows hold after any run of actions that starts from them. */
  lemma {:induction false} RunKeepsInvariants(t: Table, actions: seq<Action>, clock: seq<string>)
    requires |clock| == |actions|
    requires forall k :: 0 <= k < |clock| ==> clock[k] != ""
    requires UniqueSerials(t) && AllConsistent(t)
    ensures UniqueSerials(Run(t, actions, clock)) && AllConsistent(Run(t, actions, clock))
    decreases |actions|
  {
    if |actions| > 0 {
      ApplyKeepsUnique(t, actions[0], clock[0]);
      ApplyKeepsConsistent(t, actions[0], clock[0]);
      RunKeepsInvariants(Apply(t, actions[0], clock[0]).table, actions[1..], clock[1..]);
    }
  }

  /**
   Register, send and return on a fresh serial: all three succeed, and the
   new row ends in stock, still naming the client, stamped with the return time.
   */
  lemma RegisterSendReturn(t: Table, model: string, serial: string, partNo: string, courier: string,
                           client: string, sendAttachment: string, sendTime: string,
                           returnCourier: string, returnAttachment: string, returnTime: string)
    requires serial != "" && !HasSerial(t, serial)
    ensures var r1 := Register(t, model, serial, partNo, courier);
            var r2 := Send(r1.table, serial, client, sendAttachment, sendTime);
            var r3 := Return(r2.table, serial, returnCourier, returnAttachment, returnTime);
            && r1.outcome == Success && r2.outcome == Success && r3.outcome == Success
            && |r3.table| == |t| + 1
            && r3.table[..|t|] == t
            && r3.table[|t|].serial == serial
            && r3.table[|t|].status == InStock
            && r3.table[|t|].client == client
            && r3.table[|t|].sentAt == sendTime
            && r3.table[|t|].receivedAt == returnTime
  {
    var r1 := Register(t, model, serial, partNo, courier);
    assert IsFirstMatch(r1.table, serial, |t|) by {
      forall j | 0 <= j < |t| ensures r1.table[j].serial != serial {
        assert r1.table[j] == r1.table[..|t|][j];
      }
    }
    var r2 := Send(r1.table, serial, client, sendAttachment, sendTime);
    assert SentFrom(r1.table[|t|], r2.table[|t|], client, sendAttachment, sendTime);
    assert IsFirstMatch(r2.table, serial, |t|) by {
      forall j | 0 <= j < |t| ensures r2.table[j].serial != serial {
        assert !IsFirstMatch(r1.table, serial, j);
        assert r2.table[j] == r1.table[j];
      }
    }
    var r3 := Return(r2.table, serial, returnCourier, returnAttachment, returnTime);
    assert ReturnedFrom(r2.table[|t|], r3.table[|t|], returnCourier, returnAttachment, returnTime);
    forall j | 0 <= j < |t| ensures r3.table[j] == t[j] {
      assert !IsFirstMatch(r1.table, serial, j);
      assert !IsFirstMatch(r2.table, serial, j);
      assert r1.table[j] == r1.table[..|t|][j];
    }
  }
}
