/**
 The sample table: one row per tracked sample, eleven text cells per row,
 keyed by the serial number (序列号). Every cell is a string; the status is a
 string too, because rows come from an external sheet and the lifecycle guards
 compare it with plain string equality.
 */
module Records {

  datatype Option<+T> = None | Some(value: T)

  /** Status written on registration and on return. */
  const InStock: string := "在库"

  /** Status written when a sample is sent to a client. */
  const SentOut: string := "送出"

  /** The sheet header, in column order. */
  const Columns: seq<string> := [
    "型号", "序列号", "料号", "样品快递号", "状态",
    "送出时间", "送出客户", "送出附件",
    "收货时间", "收货快递号", "归还附件"
  ]

  /** The header of the key column. */
  const SerialColumn: string := "序列号"

  datatype Record = Record(
    model: string,             // 型号
    serial: string,            // 序列号, the key
    partNo: string,            // 料号
    courier: string,           // 样品快递号, inbound courier number
    status: string,            // 状态
    sentAt: string,            // 送出时间
    client: string,            // 送出客户
    sentAttachment: string,    // 送出附件
    receivedAt: string,        // 收货时间
    returnCourier: string,     // 收货快递号
    returnAttachment: string   // 归还附件
  )

  type Table = seq<Record>

  /** Some row of `t` carries `key` as its serial: the membership test on the 序列号 column. */
  predicate HasSerial(t: Table, key: string) {
    exists i :: 0 <= i < |t| && t[i].serial == key
  }

  /** Row `i` is the first row of `t` whose serial is `key` (pandas' `.index[0]`). */
  predicate IsFirstMatch(t: Table, key: string, i: int) {
    && 0 <= i < |t|
    && t[i].serial == key
    && forall j :: 0 <= j < i ==> t[j].serial != key
  }

  /** No two rows share a serial number. */
  predicate UniqueSerials(t: Table) {
    forall i, j :: 0 <= i < j < |t| ==> t[i].serial != t[j].serial
  }

  /** The four fields fixed at registration are the same in both rows. */
  predicate SameItem(a: Record, b: Record) {
    && a.model == b.model
    && a.serial == b.serial
    && a.partNo == b.partNo
    && a.courier == b.courier
  }

  /** All six send/return history fields are blank. */
  predicate NoHistory(x: Record) {
    && x.sentAt == "" && x.client == "" && x.sentAttachment == ""
    && x.receivedAt == "" && x.returnCourier == "" && x.returnAttachment == ""
  }

  /**
   The status/timestamp agreement a row keeps when only the lifecycle has
   touched it: the status is one of the two known values, a sample out with a
   client has a send time and no receive time, and a sample in stock has
   either never been sent (both times blank) or has come back (both set).
   */
  predicate Consistent(x: Record) {
    && (x.status == InStock || x.status == SentOut)
    && (x.status == SentOut ==> x.sentAt != "" && x.receivedAt == "")
    && (x.status == InStock ==> (x.sentAt == "" <==> x.receivedAt == ""))
  }

  predicate AllConsistent(t: Table) {
    forall i :: 0 <= i < |t| ==> Consistent(t[i])
  }
}
