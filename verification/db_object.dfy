/**
 The generic table-row object `bpModAbstractDBobj`: a table name, the hook
 prefix, the primary-key column, the per-column format map, the primary-key
 slot `__id` and the data slot `__data` for every other column.

 The database driver and the filter dispatcher are parameters of the
 operations: `getRow` answers a single-row SELECT, `exec` performs an INSERT or
 UPDATE and returns the driver's result, `insertId` is the key the driver
 generated for the last INSERT, and `filter` stands for the per-field
 "before save" filter hook.
 */
module DBObject {
  import opened PhpValues
  import opened OrderedMap

  /** A database row or a column-to-value mapping, in column order. */
  type Row = seq<(string, Value)>

  /** The object's state. `fieldsFormat` maps column names to "%s" / "%d" style tokens. */
  datatype DBObj = DBObj(
    table: string,
    objName: string,
    idField: string,
    fieldsFormat: seq<(string, string)>,
    id: Value,
    data: Row)

  /**
   The invariants the class keeps: both arrays are PHP arrays (no duplicate
   keys) and the data slot never holds the primary-key column.
   */
  predicate Valid(o: DBObj)
  {
    && DistinctKeys(o.fieldsFormat)
    && DistinctKeys(o.data)
    && o.idField !in Keys(o.data)
  }

  /** Two states of the same object: the subclass-defined configuration is shared. */
  predicate SameConfig(o: DBObj, o': DBObj)
  {
    && o'.table == o.table
    && o'.objName == o.objName
    && o'.idField == o.idField
    && o'.fieldsFormat == o.fieldsFormat
  }

  /** A fresh instance: no id and no data. */
  function Blank(table: string, objName: string, idField: string, fieldsFormat: seq<(string, string)>): DBObj
  {
    DBObj(table, objName, idField, fieldsFormat, Null, [])
  }

  // ---------------------------------------------------------------------------
  // populate()

  /** The single-row query populate() sends: `SELECT * FROM table WHERE idField = %d` with `id`. */
  datatype RowQuery = RowQuery(table: string, idField: string, id: int)

  /**
   populate($id): fetch the row with primary key `id`. Only a row whose id
   column is present and non-empty is taken; its id column goes to the id slot
   and every other column, in row order, to the data slot. Anything else leaves
   the object as it was.
   */
  function Populate(o: DBObj, id: int, getRow: RowQuery -> Option<Row>): (o': DBObj)
    ensures SameConfig(o, o')
    ensures
      var row := getRow(RowQuery(o.table, o.idField, id));
      if row.Some? && Lookup(row.value, o.idField).Some? && Truthy(Lookup(row.value, o.idField).value) then
        && o'.id == Lookup(row.value, o.idField).value
        && o.idField !in Keys(o'.data)
        && (forall c :: c != o.idField ==> Lookup(o'.data, c) == Lookup(row.value, c))
        && (forall c :: c in Keys(o'.data) <==> c in Keys(row.value) && c != o.idField)
        && Keys(o'.data) == Without(Keys(row.value), o.idField)
      else
        o' == o
  {
    var row := getRow(RowQuery(o.table, o.idField, id));
    if row.Some? && |row.value| > 0 then
      var idValue := Lookup(row.value, o.idField);
      if idValue.Some? && !IsEmpty(idValue.value) then
        o.(id := idValue.value, data := Remove(row.value, o.idField))
      else
        o
    else
      o
  }

  /** populate() keeps the object's invariants, whatever row the driver returns. */
  lemma PopulateKeepsValid(o: DBObj, id: int, getRow: RowQuery -> Option<Row>)
    requires Valid(o)
    requires forall q :: getRow(q).Some? ==> DistinctKeys(getRow(q).value)
    ensures Valid(Populate(o, id, getRow))
  {
    var row := getRow(RowQuery(o.table, o.idField, id));
    if row.Some? {
      RemoveKeepsDistinct(row.value, o.idField);
    }
  }

  /**
   The constructor: `new X($id)` populates when `$id` is a non-zero integer and
   is otherwise a blank object.
   */
  function Construct(table: string, objName: string, idField: string, fieldsFormat: seq<(string, string)>,
                     id: int, getRow: RowQuery -> Option<Row>): (o: DBObj)
    ensures SameConfig(Blank(table, objName, idField, fieldsFormat), o)
    ensures id == 0 ==> o.id == Null && o.data == []
    ensures Truthy(o.id) || (o.id == Null && o.data == [])
    ensures id != 0 ==> o == Populate(Blank(table, objName, idField, fieldsFormat), id, getRow)
  {
    var o := Blank(table, objName, idField, fieldsFormat);
    if id != 0 then Populate(o, id, getRow) else o
  }

  /**
   A constructed object keeps the invariants, and when the driver finds the row
   the object reads back that row's columns.
   */
  lemma ConstructFromRow(table: string, objName: string, idField: string, fieldsFormat: seq<(string, string)>,
                         id: int, getRow: RowQuery -> Option<Row>, c: string)
    requires DistinctKeys(fieldsFormat)
    requires forall q :: getRow(q).Some? ==> DistinctKeys(getRow(q).value)
    ensures Valid(Construct(table, objName, idField, fieldsFormat, id, getRow))
    ensures var row := getRow(RowQuery(table, idField, id));
      id != 0 && row.Some? && Lookup(row.value, idField).Some? && Truthy(Lookup(row.value, idField).value) ==>
        GetField(Construct(table, objName, idField, fieldsFormat, id, getRow), c) == Lookup(row.value, c).GetOr(Null)
  {
    if id != 0 {
      PopulateKeepsValid(Blank(table, objName, idField, fieldsFormat), id, getRow);
    }
  }

  // ---------------------------------------------------------------------------
  // save()

  /** The format token save() passes for one column: its declared format when non-empty, otherwise "%s". */
  function FormatOf(fieldsFormat: seq<(string, string)>, field: string): string
  {
    var f := Lookup(fieldsFormat, field);
    if f.Some? && !EmptyString(f.value) then f.value else "%s"
  }

  /** The format list save() builds: one token per data column, in data order. */
  function Formats(fieldsFormat: seq<(string, string)>, data: Row): (fs: seq<string>)
    ensures |fs| == |data|
    ensures forall i :: 0 <= i < |data| ==>
      if Lookup(fieldsFormat, data[i].0).Some? && !EmptyString(Lookup(fieldsFormat, data[i].0).value)
      then fs[i] == Lookup(fieldsFormat, data[i].0).value
      else fs[i] == "%s"
  {
    if |data| == 0 then [] else [FormatOf(fieldsFormat, data[0].0)] + Formats(fieldsFormat, data[1..])
  }

  /** Every format save() passes is "%s" or one the format map declares. */
  lemma FormatsComeFromMap(fieldsFormat: seq<(string, string)>, data: Row)
    ensures forall f :: f in Formats(fieldsFormat, data) ==> f == "%s" || (exists c :: (c, f) in fieldsFormat)
  {
  }

  /** The write save() hands the driver: an INSERT, or an UPDATE keyed on the primary key. */
  datatype Write =
    | Insert(table: string, data: Row, formats: seq<string>)
    | Update(table: string, data: Row, keyColumn: string, keyValue: Value, formats: seq<string>, keyFormats: seq<string>)
  {
    function Data(): Row
    {
      match this
      case Insert(_, d, _) => d
      case Update(_, d, _, _, _, _) => d
    }
  }

  /** What save() returns (`ret`) and the object state it leaves, with the write it issued. */
  datatype SaveOutcome = SaveOutcome(ret: Value, obj: DBObj, write: Write)

  /** The data after the per-field filter: same columns, same order, each value passed through the filter. */
  function FilterData(data: Row, filter: (string, Value, Value) -> Value, id: Value): (d: Row)
    ensures Keys(d) == Keys(data)
    ensures forall i :: 0 <= i < |data| ==> d[i].1 == filter(data[i].0, data[i].1, id)
  {
    seq(|data|, i requires 0 <= i < |data| => (data[i].0, filter(data[i].0, data[i].1, id)))
  }

  /**
   save(): filter every data value, build the format list, then UPDATE when the
   id slot is truthy and INSERT otherwise. A falsy driver result makes save()
   return false with the id untouched (the filtered data stays); on success an
   INSERT stores the driver's generated key and an UPDATE keeps the id.
   */
  function Save(o: DBObj, filter: (string, Value, Value) -> Value, exec: Write -> Value, insertId: int): (r: SaveOutcome)
    ensures SameConfig(o, r.obj)
    ensures r.write.Update? <==> Truthy(o.id)
    ensures r.write.table == o.table
    ensures r.write.Update? ==>
      r.write.keyColumn == o.idField && r.write.keyValue == o.id && r.write.keyFormats == ["%d"]
    ensures Keys(r.write.Data()) == Keys(o.data)
    ensures forall i :: 0 <= i < |o.data| ==> r.write.Data()[i].1 == filter(o.data[i].0, o.data[i].1, o.id)
    ensures r.obj.data == r.write.Data()
    ensures r.write.formats == Formats(o.fieldsFormat, o.data)
    ensures !Truthy(exec(r.write)) ==> r.ret == Bool(false) && r.obj.id == o.id
    ensures Truthy(exec(r.write)) ==> r.ret == exec(r.write)
    ensures Truthy(exec(r.write)) && !Truthy(o.id) ==> r.obj.id == Int(insertId)
    ensures Truthy(o.id) ==> r.obj.id == o.id
  {
    var data := FilterData(o.data, filter, o.id);
    var formats := Formats(o.fieldsFormat, o.data);
    var o1 := o.(data := data);
    var write :=
      if Truthy(o1.id) then Update(o1.table, o1.data, o1.idField, o1.id, formats, ["%d"])
      else Insert(o1.table, o1.data, formats);
    var result := exec(write);
    if !Truthy(result) then
      SaveOutcome(Bool(false), o1, write)
    else
      var o2 := if !Truthy(o1.id) then o1.(id := Int(insertId)) else o1;
      SaveOutcome(result, o2, write)
  }

  /** save() keeps the object's invariants: the filter can change values but never columns. */
  lemma SaveKeepsValid(o: DBObj, filter: (string, Value, Value) -> Value, exec: Write -> Value, insertId: int)
    requires Valid(o)
    ensures Valid(Save(o, filter, exec, insertId).obj)
  {
    var d := Save(o, filter, exec, insertId).obj.data;
    assert Keys(d) == Keys(o.data);
    DistinctKeysDependsOnKeys(o.data, d);
  }

  lemma {:induction false} DistinctKeysDependsOnKeys<V, W>(a: seq<(string, V)>, b: seq<(string, W)>)
    requires Keys(a) == Keys(b)
    ensures DistinctKeys(a) <==> DistinctKeys(b)
  {
    if |a| > 0 {
      KeysCons(a);
      KeysCons(b);
      assert Keys(a[1..]) == Keys(a)[1..] == Keys(b)[1..] == Keys(b[1..]);
      DistinctKeysDependsOnKeys(a[1..], b[1..]);
    }
  }

  /** A second save() after a successful INSERT updates the row the INSERT created. */
  lemma SaveAfterInsertUpdates(o: DBObj, filter: (string, Value, Value) -> Value, exec: Write -> Value, insertId: int)
    requires !Truthy(o.id) && insertId != 0
    requires Truthy(exec(Save(o, filter, exec, insertId).write))
    ensures var o' := Save(o, filter, exec, insertId).obj;
      Save(o', filter, exec, insertId).write == Update(o.table, FilterData(o'.data, filter, Int(insertId)), o.idField, Int(insertId), Formats(o.fieldsFormat, o.data), ["%d"])
  {
  }

  lemma {:induction false} FormatsDependOnKeys(fieldsFormat: seq<(string, string)>, a: Row, b: Row)
    requires Keys(a) == Keys(b)
    ensures Formats(fieldsFormat, a) == Formats(fieldsFormat, b)
  {
    if |a| > 0 {
      KeysCons(a);
      KeysCons(b);
      assert Keys(a[1..]) == Keys(a)[1..] == Keys(b)[1..] == Keys(b[1..]);
      FormatsDependOnKeys(fieldsFormat, a[1..], b[1..]);
    }
  }

  // ---------------------------------------------------------------------------
  // __set() / __get()

  /** `$obj->field = $value`: the primary-key name writes the id slot, any other name its data entry. */
  function SetField(o: DBObj, field: string, value: Value): (o': DBObj)
    ensures SameConfig(o, o')
    ensures field == o.idField ==> o'.id == value && o'.data == o.data
    ensures field != o.idField ==>
      && o'.id == o.id
      && Lookup(o'.data, field) == Some(value)
      && (forall c :: c != field ==> Lookup(o'.data, c) == Lookup(o.data, c))
      && Keys(o'.data) == (if field in Keys(o.data) then Keys(o.data) else Keys(o.data) + [field])
  {
    if field == o.idField then o.(id := value) else o.(data := Put(o.data, field, value))
  }

  /**
   `$obj->field`: the primary-key name reads the id slot, another name reads its
   data entry when that is set, and anything else reads as null.
   */
  function GetField(o: DBObj, field: string): (v: Value)
    ensures field == o.idField ==> v == o.id
    ensures field != o.idField && field !in Keys(o.data) ==> v == Null
    ensures field != o.idField && v != Null ==> (field, v) in o.data
    ensures field != o.idField ==> v == Lookup(o.data, field).GetOr(Null)
  {
    if field == o.idField then o.id
    else
      var d := Lookup(o.data, field);
      if d.Some? && IsSet(d.value) then d.value else Null
  }

  /** __set() keeps the object's invariants: the primary key never lands in the data slot. */
  lemma SetFieldKeepsValid(o: DBObj, field: string, value: Value)
    requires Valid(o)
    ensures Valid(SetField(o, field, value))
  {
    if field != o.idField {
      PutKeepsDistinct(o.data, field, value);
    }
  }

  /** Reading a property back returns what was written, null included. */
  lemma GetAfterSet(o: DBObj, field: string, value: Value)
    ensures GetField(SetField(o, field, value), field) == value
  {
  }

  /** Writing one property leaves every other property's reading unchanged. */
  lemma SetLeavesOtherFields(o: DBObj, field: string, other: string, value: Value)
    requires other != field
    ensures GetField(SetField(o, field, value), other) == GetField(o, other)
  {
  }

  /** Writing a property twice is the same as writing only the second value. */
  lemma SetTwice(o: DBObj, field: string, v1: Value, v2: Value)
    ensures forall g :: GetField(SetField(SetField(o, field, v1), field, v2), g) == GetField(SetField(o, field, v2), g)
  {
  }

  /** After populate() the properties read back the fetched row's columns. */
  lemma PopulateThenGet(o: DBObj, id: int, getRow: RowQuery -> Option<Row>, c: string)
    requires var row := getRow(RowQuery(o.table, o.idField, id));
      row.Some? && Lookup(row.value, o.idField).Some? && Truthy(Lookup(row.value, o.idField).value)
    ensures var row := getRow(RowQuery(o.table, o.idField, id)).value;
      GetField(Populate(o, id, getRow), c) == Lookup(row, c).GetOr(Null)
  {
  }
}
