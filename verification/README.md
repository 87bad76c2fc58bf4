# Sample lending ledger: lifecycle engine and sheet persistence

This project models the core of a small sample-lending tool that has two near-identical pages.
The tool keeps one spreadsheet row per physical sample, keyed by its serial number (序列号).
Each row has eleven text cells: 型号, 序列号, 料号, 样品快递号, 状态, 送出时间, 送出客户, 送出附件, 收货时间, 收货快递号, 归还附件.
Four guarded transitions act on the table:

- **Register (登记)** appends a row with status 在库 and blank history fields. It refuses an empty or already-present serial.
- **Send (送出)** acts on the first row with the serial, if that row is 在库. It marks the row 送出, stamps the send time, client and attachment, and clears the three return fields.
- **Return (归还)** acts on the first row with the serial, if that row is 送出. It marks the row 在库 and stamps the receive time, courier number and attachment.
- **Delete (删除)** removes every row with the serial, but only when the confirmation box is ticked.

After each successful transition, the whole table is written back to the sheet.

The modules:

- `Records` (records.dfy): the row datatype, the header, the two status strings, and the lookup, uniqueness and consistency predicates.
- `Text` (text.dfy): Python's `str.strip()`, using the `str.isspace()` whitespace set.
- `Lifecycle` (lifecycle.dfy): the four transitions as pure functions `(table, inputs, now) -> Step(table', outcome)`. It also has an `Action` datatype with `Apply`/`Run` for invariants over any sequence of actions.
- `Store` (store.dfy): the saved grid (header plus one row per record), reading data rows back as records, frames (column labels plus rows), the missing-key-column failure, and write-on-success.
- `PlainApp` (plain_app.dfy): app.py. Inputs reach the engine as typed, and its loader turns an empty read into a frame with no columns.
- `SheetApp` (sheet_app.dfy): app_googlesheet_excel.py. It strips every text input first, and its loader always keeps the fixed header.

Points where the code's behaviour is easy to mistake:

- Both pages clear 收货时间, 收货快递号 and 归还附件 on every send.
- A confirmed delete removes every row with the serial, not just one row. With unique serials these are the same thing (`Lifecycle.DeleteUniqueRemovesOneRow`).
- The status is any string read from the sheet, not a two-value enumeration. The guards compare it with plain string equality. The two-state picture holds only for rows the lifecycle itself wrote (`Lifecycle.ApplyKeepsConsistent`).
- An empty read yields a table only on the trimming page (see Findings).

The clock is a parameter: `now` is an opaque string.
A sheet read is a parameter too: `Fetch` is either the records read or `Unavailable`, which stands for any exception.

## Model

| member | source | states |
|---|---|---|
| Text.Strip | app_googlesheet_excel.py:54-57 | A stripped input has no whitespace at either end and is no longer than the input. It is empty exactly when the input is all whitespace. |
| Text.StripPadded | app_googlesheet_excel.py:78-80 | Stripping removes exactly the surrounding whitespace: a trimmed text padded with whitespace on both sides strips back to itself. |
| Text.StripIdempotent | app_googlesheet_excel.py:102-104 | Stripping an already-stripped input changes nothing; SheetApp.ApplyFormStrippedAlike rests on it. |
| Lifecycle.FirstMatch | app.py:74-75 | The lookup returns nothing exactly when no row has the serial. Otherwise it returns the index of the first row with that serial, as pandas' `.index[0]` does. |
| Lifecycle.Register | app.py:51-66 | Succeeds if and only if the serial is non-empty and no row has it. On success, exactly one row is appended with the four given fields, status 在库 and six blank history fields, and earlier rows keep their order. Otherwise the outcome is EmptyOrDuplicate and the table is unchanged. |
| Lifecycle.Send | app.py:73-89 | NotFound exactly when no row has the serial. Success exactly when the first matching row is 在库; any other status gives WrongStatus. Only on success does that row change: status 送出, send time = now, client and attachment as given, the three return fields blank, item fields kept. Every other row is unchanged, and the table is unchanged on failure. |
| Lifecycle.Return | app.py:96-109 | NotFound exactly when no row has the serial. Success exactly when the first matching row is 送出; otherwise WrongStatus. On success that row becomes 在库 with receive time = now and the courier and attachment as given, and it keeps its send fields and item fields. No other row changes. |
| Lifecycle.RemoveSerial | app.py:124 | The filtered table has no row with the key and is no longer than the input. |
| Lifecycle.RemoveSerialContents | app.py:124 | The filtered table holds every row without the key exactly as often as the input did, and nothing else. |
| Lifecycle.RemoveSerialShrinks | app.py:122-124 | Filtering by a serial that is present removes at least one row. |
| Lifecycle.Delete | app.py:121-130 | NotFound when the serial is absent. NeedConfirm when it is present but the box is unticked. In both cases the table is unchanged. Otherwise the outcome is Success and the table loses every row with that serial. |
| Lifecycle.RemoveSerialAppend | app.py:124 | The filter distributes over concatenation, so the surviving rows keep their original order. |
| Lifecycle.RemoveAbsentSerial | app.py:124 | Filtering by a serial no row carries leaves the table as it was. |
| Lifecycle.DeleteUniqueRemovesOneRow | app.py:122-124 | When serials are unique, a confirmed delete removes exactly the one matching row and keeps the rest in order. |
| Lifecycle.RegisterTwiceRejected | app.py:52 | A second registration of the same serial is refused with EmptyOrDuplicate and leaves the table as the first registration left it. |
| Lifecycle.SendReturnKeepSerials | app.py:75-83 | Send and return never change any row's serial, whether they succeed or not. |
| Lifecycle.DeleteKeepsRows | app.py:124 | Every row left by a delete was a row of the table before. |
| Lifecycle.ApplySerialsFrom | app.py:51-130 | No action invents a serial: every serial afterwards was already in the table, or is the one a successful registration added. |
| Lifecycle.RemoveSerialKeepsUnique | app.py:124 | Filtering out a serial keeps serials unique. |
| Lifecycle.ApplyKeepsUnique | app.py:52 | No action introduces a duplicate serial: unique serials before mean unique serials after. |
| Lifecycle.ApplyKeepsConsistent | app.py:51-109 | With a non-blank clock, every action keeps every row consistent. A row that is 送出 has a send time and no receive time. A row that is 在库 has both times blank or both set. |
| Lifecycle.RunKeepsInvariants | app.py:39-130 | Unique serials and consistent rows survive any sequence of actions. |
| Lifecycle.RegisterSendReturn | app.py:51-103 | Register, then send, then return a fresh serial: all three succeed. The row ends 在库, keeps the client and send time, carries the return time, and the earlier rows are untouched. |
| Store.Cells | app.py:34-36 | A record written as a sheet row has one cell per header column and reads back as the same record. |
| Store.ReadRecords | app.py:24 | One record per data row below the header; a sheet with no data rows reads as no records. Each record's serial and status are the cells under the 序列号 and 状态 columns. Together with Store.Save this forms the round trip. |
| Store.KeyedRows | app.py:74 | Reading the 序列号 column succeeds exactly when the frame has that column, and fails as KeyError otherwise. A frame under the fixed header always has it, and a frame with no columns never does. |
| Store.Save | app.py:33-36 | The written sheet starts with the header, has one more row than the table, and its data rows read back as exactly the table. |
| Store.Commit | app.py:62-63 | The table is written back if and only if the transition succeeded, and what is written reads back as the new table. |
| PlainApp.Load | app.py:22-31 | A failed read gives an empty frame under the fixed header. A read with records gives those rows. The frame has the 序列号 column exactly when the read is not an empty record list. |
| PlainApp.Handle | app.py:39-130 | A button press raises KeyError exactly when the read returned no records and the action is not a register with an empty serial. That register is refused before the 序列号 column is read (app.py:52). Otherwise the press reports the engine's outcome and writes the sheet only on success. What it writes starts with the fixed header row and reads back as the engine's new table. |
| PlainApp.RoundTrip | app.py:22-36 | Saving then reloading returns the same table and header exactly when the table is not empty. |
| PlainApp.DeletingLastSampleBreaksPage | app.py:24-25 | Deleting the only sample succeeds and writes a header-only sheet. On the next load of that sheet every action raises KeyError, except a register with an empty serial, which is refused with a warning and writes nothing. |
| PlainApp.BlankSerialRegisters | app.py:47-52 | Without stripping, a serial made of a single blank is accepted as a new key. |
| PlainApp.PaddedSerialNotFound | app.py:70-74 | Without stripping, a serial typed with a leading blank matches no stored trimmed serial, so send, return and delete report NotFound and change nothing. |
| SheetApp.Load | app_googlesheet_excel.py:30-37 | The frame always carries the fixed header and so the key column. A failed or empty read has no rows, and a read with records gives them. |
| SheetApp.RegisterForm | app_googlesheet_excel.py:54-74 | Succeeds if and only if the input serial is not all whitespace and its stripped form is not present. The appended row holds the stripped serial, model, part number and courier number, status 在库 and no history. A refusal leaves the table unchanged. |
| SheetApp.SendForm | app_googlesheet_excel.py:78-98 | Send keyed by the stripped serial. The outcome is always Success, NotFound or WrongStatus. NotFound exactly when no row has the stripped serial. Success exactly when the first matching row is 在库, so a present serial under any other status reports WrongStatus. Only that row changes, the stamped client and attachment are the stripped inputs, and a failure leaves the table unchanged. |
| SheetApp.ReturnForm | app_googlesheet_excel.py:102-119 | Return keyed by the stripped serial. The outcome is always Success, NotFound or WrongStatus. NotFound exactly when no row has the stripped serial. Success exactly when the first matching row is 送出, so a present serial under any other status reports WrongStatus. Only that row changes, the stamped courier and attachment are the stripped inputs, and a failure leaves the table unchanged. |
| SheetApp.DeleteForm | app_googlesheet_excel.py:153-165 | Delete keyed by the stripped serial. The outcome is always Success, NotFound or NeedConfirm, and it is Success exactly when the stripped serial is present and the box is ticked. NotFound and NeedConfirm leave the table unchanged. Success gives exactly the engine's order-preserving filter by the stripped serial, so every other row is kept as often as before and in its original order. |
| SheetApp.Handle | app_googlesheet_excel.py:46-50 | A button press never fails on the key column. It reports the form's outcome and writes only on success. The written sheet starts with the fixed header row and reloads as the new table. |
| SheetApp.RoundTrip | app_googlesheet_excel.py:30-43 | Every table, the empty one included, survives a save and a reload unchanged. |
| SheetApp.DeleteOnlyRow | app_googlesheet_excel.py:156-160 | A confirmed delete of the only sample, by its trimmed serial, empties the table. |
| SheetApp.RegisterIntoEmptySheet | app_googlesheet_excel.py:33-34 | An empty read still accepts the registration of any serial that is not all whitespace. |
| SheetApp.DeletingLastSampleKeepsPage | app_googlesheet_excel.py:156-161 | Deleting the only sample writes a header-only sheet, and the next load of that sheet still accepts a registration. |
| SheetApp.PaddedSerialActsAlike | app_googlesheet_excel.py:78 | Whitespace around a typed serial does not change the result of register, send, return or delete. |
| SheetApp.ApplyFormKeepsSerialsTrimmed | app_googlesheet_excel.py:55 | If every stored serial is trimmed, it stays so after any action through this page. |
| SheetApp.ApplyFormIsApplyStripped | app_googlesheet_excel.py:54-165 | Every form of this page acts exactly as the plain engine's action on the stripped inputs. |
| SheetApp.ApplyFormStrippedAlike | app_googlesheet_excel.py:54-57 | Typing inputs that are already stripped gives the same result as typing the raw inputs, for every action. |
| SheetApp.ApplyFormKeepsUnique | app_googlesheet_excel.py:60 | No action through this page introduces a duplicate serial: unique serials before mean unique serials after. |
| SheetApp.ApplyFormKeepsConsistent | app_googlesheet_excel.py:54-165 | With a non-blank clock, every action through this page keeps each row consistent: 送出 has a send time and no receive time, and 在库 has both times blank or both set. |

## Left out

- Streamlit widgets, the menu radio, headers and the success/warning messages are UI. The outcome value stands in for which message is shown.
- Google credentials, opening the worksheet, `worksheet.clear`/`update` and `get_all_records` are network I/O. A read is modelled as the `Fetch` parameter. A save is modelled as the grid it writes.
- `datetime.now().strftime(...)` is the wall clock. The `now` parameter stands in for it. Only the consistency invariant needs it to be non-blank.
- gspread turns numeric-looking cells into numbers, and pandas turns them back with `astype(str)` (for example 007 becomes 7). Every cell is modelled as text from the start.
- The status view is presentation and library serialisation. This covers the tab-prefixed display, the openpyxl Excel export with text-formatted cells, and the CSV download.
- Concurrent writers and last-write-wins are not modelled: the source has no logic for them.
- PlainApp.Load, SheetApp.Load and Store.ReadRecords assume the sheet's header row is the fixed eleven-column header, which every save writes. A hand-edited header with other labels is not modelled.
- A save that fails is not modelled: the source does not handle it.

## Findings

| source | as written | input that shows it | evidently intended | confidence | as-written member | corrected member |
|---|---|---|---|---|---|---|
| app.py:24-25 | `load_data` returns `pd.DataFrame(records)`, which has no columns when `get_all_records` returns an empty list. Every branch then reads `df['序列号']` and raises KeyError. The one exception is a register with an empty serial, which `if sample_id and ...` refuses before that read. | Delete the only sample. The save writes a header-only sheet, and the next read returns no records. No sample can then be registered, sent, returned or deleted through the page. | An empty sheet loads as an empty table under the fixed header, which is what the trimming page does (app_googlesheet_excel.py:33-34) | medium, not executed | PlainApp.DeletingLastSampleBreaksPage | SheetApp.Load |
