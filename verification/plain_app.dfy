/**
 The untrimmed page (app.py): form inputs reach the lifecycle engine exactly
 as typed, and its loader turns an empty read into a frame with no columns.
 */
module PlainApp {
  import opened Records
  import opened Text
  import opened Lifecycle
  import opened Store

  /**
   load_data: a failed read gives an empty frame under the fixed header; a
   read with records gives a frame under the sheet's header, which every save
   writes as the fixed one; a read with no records gives a frame with no
   columns at all.
   */
  function Load(f: Fetch): (fr: Frame)
    ensures f.Unavailable? ==> fr == Frame(Columns, [])
    ensures f.Fetched? ==> fr.rows == f.records
    ensures SerialColumn in fr.columns <==> f != Fetched([])
  {
    match f
    case Unavailable => Frame(Columns, [])
    case Fetched(rs) => if |rs| == 0 then Frame([], []) else Frame(Columns, rs)
  }

  /**
   One button press: reload, apply the action to the raw inputs and write the
   table back on success. None is the KeyError raised by reading the 序列号
   column of a frame that has none. Register tests its serial for emptiness
   before it reads that column, so an empty serial is refused without it.
   */
  function Handle(f: Fetch, a: Action, now: string): (r: Option<Response>)
    ensures r.None? <==> f == Fetched([]) && !(a.RegisterAction? && a.serial == "")
    ensures r.Some? ==> r.value.outcome == Apply(Load(f).rows, a, now).outcome
    ensures r.Some? ==> (r.value.written.Some? <==> r.value.outcome == Success)
    ensures r.Some? && r.value.written.Some? ==>
      |r.value.written.value| > 0 && r.value.written.value[0] == Columns
    ensures r.Some? && r.value.written.Some? ==>
      ReadRecords(r.value.written.value) == Apply(Load(f).rows, a, now).table
  {
    if a.RegisterAction? && a.serial == "" then
      Some(Response(None, EmptyOrDuplicate))
    else
      match KeyedRows(Load(f))
      case None => None
      case Some(t) => Some(Commit(Apply(t, a, now)))
  }

  /** A table survives a save and a reload unchanged exactly when it is not empty. */
  lemma RoundTrip(t: Table)
    ensures Load(Fetched(ReadRecords(Save(t)))) == Frame(Columns, t) <==> t != []
  {
  }

  /**
   Deleting the only sample writes a sheet holding just the header. On the
   next load of that sheet every action raises KeyError, except a register
   with an empty serial, which is refused before the column is read.
   */
  lemma DeletingLastSampleBreaksPage(x: Record, a: Action, now: string, later: string)
    ensures Handle(Fetched([x]), DeleteAction(x.serial, true), now) == Some(Response(Some(Save([])), Success))
    ensures !(a.RegisterAction? && a.serial == "") ==> Handle(Fetched(ReadRecords(Save([]))), a, later) == None
    ensures a.RegisterAction? && a.serial == "" ==>
      Handle(Fetched(ReadRecords(Save([]))), a, later) == Some(Response(None, EmptyOrDuplicate))
  {
    assert HasSerial([x], x.serial) by {
      assert [x][0].serial == x.serial;
    }
    assert RemoveSerial([x], x.serial) == [];
    assert Apply([x], DeleteAction(x.serial, true), now) == Step([], Success);
    assert ReadRecords(Save([])) == [];
  }

  /** Untrimmed input accepts a serial of blanks as a new key. */
  lemma BlankSerialRegisters(t: Table, model: string, partNo: string, courier: string)
    requires !HasSerial(t, " ")
    ensures Register(t, model, " ", partNo, courier).outcome == Success
  {
  }

  /**
   Untrimmed input misses a row when the typed serial carries a stray leading
   blank: send, return and delete all report it absent.
   */
  lemma PaddedSerialNotFound(t: Table, key: string, client: string, courier: string,
                             attachment: string, now: string, confirmed: bool)
    requires forall i :: 0 <= i < |t| ==> Trimmed(t[i].serial)
    ensures Send(t, " " + key, client, attachment, now) == Step(t, NotFound)
    ensures Return(t, " " + key, courier, attachment, now) == Step(t, NotFound)
    ensures Delete(t, " " + key, confirmed) == Step(t, NotFound)
  {
    assert !HasSerial(t, " " + key) by {
      forall i | 0 <= i < |t| ensures t[i].serial != " " + key {
        assert !Trimmed(" " + key);
      }
    }
  }
}
