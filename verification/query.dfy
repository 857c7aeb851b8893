/**
 The constrained ad-hoc query `get($r)`: the caller's `select` and `where`
 arguments are merged over defaults, the SELECT columns are whitelisted
 against the format map's keys plus `*` and the primary-key column, WHERE
 keys are kept only when the format map knows them, and the result kind
 (a result set or a single value) is chosen from the validated column list.

 The statement is modelled as tokens: the column list after `SELECT`, the
 table, and one equality condition per surviving WHERE key (column, its format
 token and the caller's value). Escaping and running the statement belong to
 the driver.
 */
module Query {
  import opened PhpValues
  import opened OrderedMap
  import opened DBObject

  /** The caller's argument array; a missing key is None and gets its default. */
  datatype GetArgs = GetArgs(select: Option<seq<string>>, where: Option<seq<(string, Value)>>)

  /** One `column = <format>` condition, bound to the caller's value. */
  datatype Cond = Cond(column: string, format: string, value: Value)

  /** `SELECT columns FROM table [WHERE c1 AND c2 ...]`; an empty `where` means no WHERE clause. */
  datatype Statement = Statement(columns: seq<string>, table: string, where: seq<Cond>)

  /** The driver call get() makes: `get_results` (many rows) or `get_var` (one value). */
  datatype ResultKind = Results | SingleValue

  datatype GetCall = GetCall(kind: ResultKind, stmt: Statement)

  /** `array_merge(['select' => ['*'], 'where' => []], $r)` for the two keys get() reads. */
  function MergeDefaults(args: GetArgs): (r: (seq<string>, seq<(string, Value)>))
    ensures args.select.Some? ==> r.0 == args.select.value
    ensures args.select.None? ==> r.0 == ["*"]
    ensures args.where.Some? ==> r.1 == args.where.value
    ensures args.where.None? ==> r.1 == []
  {
    (args.select.GetOr(["*"]), args.where.GetOr([]))
  }

  /** The columns a SELECT may name, in this order: the format map's keys, then `*`, then the primary key. */
  function AllowedColumns(o: DBObj): seq<string>
  {
    Keys(o.fieldsFormat) + ["*", o.idField]
  }

  /**
   `array_values(array_intersect($allowed, $requested))`: the entries of
   `allowed` that also occur in `requested`, in `allowed`'s order and with
   `allowed`'s repetitions.
   */
  function Intersect(allowed: seq<string>, requested: seq<string>): seq<string>
  {
    if |allowed| == 0 then []
    else
      var t := Intersect(allowed[1..], requested);
      if allowed[0] in requested then [allowed[0]] + t else t
  }

  /**
   What survives the whitelist: a name occurs in the result as often as in the
   allowed list when it was requested, and not at all otherwise.
   */
  lemma {:induction false} IntersectCounts(allowed: seq<string>, requested: seq<string>)
    ensures forall x :: multiset(Intersect(allowed, requested))[x] == if x in requested then multiset(allowed)[x] else 0
    ensures forall x :: x in Intersect(allowed, requested) <==> x in allowed && x in requested
  {
    if |allowed| > 0 {
      assert allowed == [allowed[0]] + allowed[1..];
      IntersectCounts(allowed[1..], requested);
    }
  }

  /** The result follows the allowed list's order: intersecting a concatenation intersects each part. */
  lemma {:induction false} IntersectDistributes(a1: seq<string>, a2: seq<string>, requested: seq<string>)
    ensures Intersect(a1 + a2, requested) == Intersect(a1, requested) + Intersect(a2, requested)
  {
    if |a1| > 0 {
      var a := a1 + a2;
      assert a[0] == a1[0];
      assert a[1..] == a1[1..] + a2;
      IntersectDistributes(a1[1..], a2, requested);
      var t1 := Intersect(a1[1..], requested);
      var t2 := Intersect(a2, requested);
      assert Intersect(a, requested) == if a1[0] in requested then [a1[0]] + (t1 + t2) else t1 + t2;
      assert [a1[0]] + (t1 + t2) == ([a1[0]] + t1) + t2;
    } else {
      assert a1 + a2 == a2;
    }
  }

  /** The order (and repetition) of the requested names plays no part: only which names were requested. */
  lemma {:induction false} IntersectIgnoresRequestOrder(allowed: seq<string>, req1: seq<string>, req2: seq<string>)
    requires forall x :: x in req1 <==> x in req2
    ensures Intersect(allowed, req1) == Intersect(allowed, req2)
  {
    if |allowed| > 0 {
      IntersectIgnoresRequestOrder(allowed[1..], req1, req2);
    }
  }

  /**
   The validated SELECT list, `$r['select']` after the SELECT block, for a
   given whitelist: the list the result kind is read from.
   */
  function SelectList(allowed: seq<string>, args: GetArgs): (sel: seq<string>)
    ensures forall c :: c in sel ==> c in allowed || c == "*"
  {
    var requested := MergeDefaults(args).0;
    if |requested| == 0 then requested
    else
      var validated := Intersect(allowed, requested);
      IntersectCounts(allowed, requested);
      if |validated| > 0 then validated else ["*"]
  }

  /** The columns after `SELECT`: the validated list, or `*` when there is none. */
  function SelectColumns(allowed: seq<string>, args: GetArgs): (cols: seq<string>)
    ensures |cols| > 0
    ensures forall c :: c in cols ==> c in allowed || c == "*"
  {
    var sel := SelectList(allowed, args);
    if |sel| > 0 then sel else ["*"]
  }

  /**
   The WHERE conditions: one per caller key the format map knows, in the
   caller's order, with that column's format token and the caller's value.
   */
  function WhereConds(fieldsFormat: seq<(string, string)>, where: seq<(string, Value)>): seq<Cond>
  {
    if |where| == 0 then []
    else
      var t := WhereConds(fieldsFormat, where[1..]);
      var f := Lookup(fieldsFormat, where[0].0);
      if f.Some? then [Cond(where[0].0, f.value, where[0].1)] + t else t
  }

  /**
   Every condition is a caller entry whose key the format map knows, carrying
   that key's format; and every such caller entry yields its condition.
   */
  lemma {:induction false} WhereCondsSpec(fieldsFormat: seq<(string, string)>, where: seq<(string, Value)>)
    ensures |WhereConds(fieldsFormat, where)| <= |where|
    ensures forall c :: c in WhereConds(fieldsFormat, where) ==>
      Lookup(fieldsFormat, c.column) == Some(c.format) && (c.column, c.value) in where
    ensures forall k, v :: (k, v) in where && k in Keys(fieldsFormat) ==>
      Cond(k, Lookup(fieldsFormat, k).value, v) in WhereConds(fieldsFormat, where)
  {
    if |where| > 0 {
      assert where == [where[0]] + where[1..];
      WhereCondsSpec(fieldsFormat, where[1..]);
    }
  }

  /** The conditions keep the caller's order: filtering a concatenation filters each part. */
  lemma {:induction false} WhereCondsDistributes(fieldsFormat: seq<(string, string)>, w1: seq<(string, Value)>, w2: seq<(string, Value)>)
    ensures WhereConds(fieldsFormat, w1 + w2) == WhereConds(fieldsFormat, w1) + WhereConds(fieldsFormat, w2)
  {
    if |w1| > 0 {
      var w := w1 + w2;
      assert w[0] == w1[0];
      assert w[1..] == w1[1..] + w2;
      WhereCondsDistributes(fieldsFormat, w1[1..], w2);
      var t1 := WhereConds(fieldsFormat, w1[1..]);
      var t2 := WhereConds(fieldsFormat, w2);
      var f := Lookup(fieldsFormat, w1[0].0);
      if f.Some? {
        var c := Cond(w1[0].0, f.value, w1[0].1);
        assert [c] + (t1 + t2) == ([c] + t1) + t2;
      }
    } else {
      assert w1 + w2 == w2;
    }
  }

  /** The statement and driver call get() builds once its SELECT whitelist is fixed. */
  function BuildGet(o: DBObj, allowed: seq<string>, args: GetArgs): (call: GetCall)
    ensures call.stmt.table == o.table
    ensures |call.stmt.columns| > 0
    ensures forall c :: c in call.stmt.columns ==> c in allowed || c == "*"
    ensures forall c :: c in call.stmt.where ==> c.column in Keys(o.fieldsFormat)
    ensures call.stmt.where == WhereConds(o.fieldsFormat, MergeDefaults(args).1)
  {
    var sel := SelectList(allowed, args);
    WhereCondsSpec(o.fieldsFormat, MergeDefaults(args).1);
    var stmt := Statement(SelectColumns(allowed, args), o.table, WhereConds(o.fieldsFormat, MergeDefaults(args).1));
    if sel == ["*"] || |sel| > 1 then GetCall(Results, stmt) else GetCall(SingleValue, stmt)
  }

  /** get($r): the statement it builds and the driver call it makes. */
  function Get(o: DBObj, args: GetArgs): (call: GetCall)
    ensures call.stmt.table == o.table
    ensures |call.stmt.columns| > 0
    ensures forall c :: c in call.stmt.columns ==> c in Keys(o.fieldsFormat) || c == "*" || c == o.idField
    ensures forall c :: c in call.stmt.where ==> c.column in Keys(o.fieldsFormat)
    ensures call.stmt.where == WhereConds(o.fieldsFormat, MergeDefaults(args).1)
  {
    BuildGet(o, AllowedColumns(o), args)
  }

  // ---------------------------------------------------------------------------
  // SELECT and result kind, case by case on the caller's `select`

  /** Without `select` the query is `SELECT *` and returns a result set. */
  lemma GetDefaultSelect(o: DBObj, args: GetArgs)
    requires args.select.None?
    requires "*" !in Keys(o.fieldsFormat) && o.idField != "*"
    ensures Get(o, args).stmt.columns == ["*"]
    ensures Get(o, args).kind == Results
  {
    IntersectDistributes(Keys(o.fieldsFormat), ["*", o.idField], ["*"]);
    NoneSurvive(Keys(o.fieldsFormat), ["*"]);
    assert ["*", o.idField][1..] == [o.idField];
    assert Intersect([o.idField], ["*"]) == [];
  }

  /** An explicitly empty `select` still reads `SELECT *`, yet takes the single-value path. */
  lemma GetEmptySelect(o: DBObj, args: GetArgs)
    requires args.select == Some([])
    ensures Get(o, args).stmt.columns == ["*"]
    ensures Get(o, args).kind == SingleValue
  {
  }

  /** A non-empty request none of whose names is allowed falls back to `SELECT *` and a result set. */
  lemma GetNoColumnSurvives(o: DBObj, args: GetArgs)
    requires args.select.Some? && |args.select.value| > 0
    requires forall c :: c in args.select.value ==> c !in AllowedColumns(o)
    ensures Get(o, args).stmt.columns == ["*"]
    ensures SelectList(AllowedColumns(o), args) == ["*"]
    ensures Get(o, args).kind == Results
  {
    NoneSurvive(AllowedColumns(o), args.select.value);
  }

  /**
   A request with an allowed name selects exactly the allowed names requested,
   in the allowed list's order, and returns a result set iff that list is
   `['*']` or names more than one column.
   */
  lemma GetValidatedSelect(o: DBObj, args: GetArgs)
    requires args.select.Some?
    requires exists c :: c in args.select.value && c in AllowedColumns(o)
    ensures Get(o, args).stmt.columns == Intersect(AllowedColumns(o), args.select.value)
    ensures Get(o, args).kind == Results <==>
      Get(o, args).stmt.columns == ["*"] || |Get(o, args).stmt.columns| > 1
  {
    var c :| c in args.select.value && c in AllowedColumns(o);
    IntersectCounts(AllowedColumns(o), args.select.value);
    var v := Intersect(AllowedColumns(o), args.select.value);
    assert c in v;
  }

  /**
   The single-value path is taken exactly when `select` was given empty, or
   when it validates to one column other than `*`.
   */
  lemma {:induction false} GetSingleValueIff(o: DBObj, args: GetArgs)
    ensures Get(o, args).kind == SingleValue <==>
      || args.select == Some([])
      || (args.select.Some? && |Intersect(AllowedColumns(o), args.select.value)| == 1
          && Intersect(AllowedColumns(o), args.select.value) != ["*"])
  {
    match args.select
    case None =>
      var v := Intersect(AllowedColumns(o), ["*"]);
      IntersectCounts(AllowedColumns(o), ["*"]);
      assert "*" in v;
      if |v| == 1 {
        assert v == [v[0]];
      }
    case Some(req) =>
      if |req| > 0 && |Intersect(AllowedColumns(o), req)| == 0 {
        IntersectCounts(AllowedColumns(o), req);
      }
  }

  /**
   When the primary key is also a format-map key it is allowed twice, so
   asking for it alone selects it twice and takes the result-set path.
   */
  lemma {:induction false} GetIdFieldTwice(o: DBObj, args: GetArgs)
    requires DistinctKeys(o.fieldsFormat)
    requires o.idField in Keys(o.fieldsFormat) && o.idField != "*"
    requires args.select == Some([o.idField])
    ensures Get(o, args).stmt.columns == [o.idField, o.idField]
    ensures Get(o, args).kind == Results
  {
    var keys := Keys(o.fieldsFormat);
    IntersectDistributes(keys, ["*", o.idField], [o.idField]);
    IntersectOfDistinctSingle(o.fieldsFormat, o.idField);
    assert ["*", o.idField][1..] == [o.idField];
    assert Intersect([o.idField], [o.idField]) == [o.idField];
  }

  /** Intersecting distinct keys with one of them leaves exactly that key. */
  lemma {:induction false} IntersectOfDistinctSingle<V>(m: seq<(string, V)>, k: string)
    requires DistinctKeys(m) && k in Keys(m)
    ensures Intersect(Keys(m), [k]) == [k]
  {
    KeysCons(m);
    assert Keys(m)[1..] == Keys(m[1..]);
    if m[0].0 == k {
      NoneSurvive(Keys(m[1..]), [k]);
    } else {
      IntersectOfDistinctSingle(m[1..], k);
    }
  }

  lemma {:induction false} NoneSurvive(allowed: seq<string>, requested: seq<string>)
    requires forall x :: x in requested ==> x !in allowed
    ensures Intersect(allowed, requested) == []
  {
    if |allowed| > 0 {
      assert allowed[0] in allowed;
      NoneSurvive(allowed[1..], requested);
    }
  }

  /** When the primary key is not a format-map key, asking for it alone takes the single-value path. */
  lemma GetIdFieldOnce(o: DBObj, args: GetArgs)
    requires o.idField !in Keys(o.fieldsFormat) && o.idField != "*"
    requires args.select == Some([o.idField])
    ensures Get(o, args).stmt.columns == [o.idField]
    ensures Get(o, args).kind == SingleValue
  {
    IntersectDistributes(Keys(o.fieldsFormat), ["*", o.idField], [o.idField]);
    NoneSurvive(Keys(o.fieldsFormat), [o.idField]);
    assert ["*", o.idField][1..] == [o.idField];
    assert Intersect([o.idField], [o.idField]) == [o.idField];
  }

  // ---------------------------------------------------------------------------
  // WHERE

  /** There is no WHERE clause exactly when none of the caller's keys is a format-map key. */
  lemma GetNoWhereIff(o: DBObj, args: GetArgs)
    ensures Get(o, args).stmt.where == [] <==>
      (args.where.None? || forall i :: 0 <= i < |args.where.value| ==> args.where.value[i].0 !in Keys(o.fieldsFormat))
  {
    if args.where.Some? {
      var w := args.where.value;
      WhereCondsSpec(o.fieldsFormat, w);
      var cs := Get(o, args).stmt.where;
      if exists i :: 0 <= i < |w| && w[i].0 in Keys(o.fieldsFormat) {
        var i :| 0 <= i < |w| && w[i].0 in Keys(o.fieldsFormat);
        assert w[i] in w;
        assert Cond(w[i].0, Lookup(o.fieldsFormat, w[i].0).value, w[i].1) in cs;
      }
      if cs != [] {
        assert cs[0] in cs;
        var i :| 0 <= i < |w| && w[i] == (cs[0].column, cs[0].value);
        assert w[i].0 in Keys(o.fieldsFormat);
      }
    }
  }

  /** The primary key constrains the query only when it is itself a format-map key. */
  lemma GetWhereDropsIdField(o: DBObj, args: GetArgs)
    requires o.idField !in Keys(o.fieldsFormat)
    ensures forall c :: c in Get(o, args).stmt.where ==> c.column != o.idField
  {
  }

  // ---------------------------------------------------------------------------
  // The primary key listed twice

  /**
   As written, a subclass that lists its primary key in the format map gets
   two copies of it in the SELECT when it asks for that key alone, and a
   result set where one value was asked for.
   */
  lemma IdOnlyRequestReturnsRows()
    ensures
      var o := DBObj("wp_bp_mod_contents", "bp_mod_content", "content_id",
                     [("content_id", "%d"), ("item_type", "%s")], Null, []);
      var call := Get(o, GetArgs(Some(["content_id"]), None));
      call.stmt.columns == ["content_id", "content_id"] && call.kind == Results
  {
  }

  /** The whitelist with the primary key added only when the format map does not already list it. */
  function DedupAllowedColumns(o: DBObj): (allowed: seq<string>)
    ensures forall c :: c in allowed <==> c in AllowedColumns(o)
  {
    Keys(o.fieldsFormat) + ["*"] + (if o.idField in Keys(o.fieldsFormat) then [] else [o.idField])
  }

  /** get() over the deduplicated whitelist. */
  function GetDedup(o: DBObj, args: GetArgs): (call: GetCall)
    ensures call.stmt.table == o.table
    ensures forall c :: c in call.stmt.columns ==> c in Keys(o.fieldsFormat) || c == "*" || c == o.idField
    ensures call.stmt.where == Get(o, args).stmt.where
    ensures |call.stmt.columns| > 0
    ensures o.idField !in Keys(o.fieldsFormat) ==> call == Get(o, args)
  {
    assert o.idField !in Keys(o.fieldsFormat) ==> DedupAllowedColumns(o) == AllowedColumns(o);
    BuildGet(o, DedupAllowedColumns(o), args)
  }

  /**
   With the deduplicated whitelist, asking for one allowed column (other than
   `*`) selects exactly that column and reads a single value, whether or not
   the format map lists the primary key.
   */
  lemma {:induction false} GetDedupSingleColumn(o: DBObj, args: GetArgs, c: string)
    requires DistinctKeys(o.fieldsFormat)
    requires c != "*" && (c in Keys(o.fieldsFormat) || c == o.idField)
    requires args.select == Some([c])
    ensures GetDedup(o, args).stmt.columns == [c]
    ensures GetDedup(o, args).kind == SingleValue
  {
    var keys := Keys(o.fieldsFormat);
    var tail := if o.idField in keys then [] else [o.idField];
    assert DedupAllowedColumns(o) == keys + (["*"] + tail);
    IntersectDistributes(keys, ["*"] + tail, [c]);
    IntersectDistributes(["*"], tail, [c]);
    assert Intersect(["*"], [c]) == [];
    if c in keys {
      IntersectOfDistinctSingle(o.fieldsFormat, c);
      if tail != [] {
        assert (["*"] + tail)[1..] == tail;
        assert Intersect(tail, [c]) == [];
      }
    } else {
      NoneSurvive(keys, [c]);
      assert tail == [c];
      assert (["*"] + tail)[1..] == tail;
      assert Intersect(tail, [c]) == [c];
    }
  }

  /**
   The converse of the last clause of `GetDedup`: when the format map lists the
   primary key, asking for that key alone comes out differently under the
   corrected whitelist.
   */
  lemma {:induction false} GetDedupDiffers(o: DBObj)
    requires DistinctKeys(o.fieldsFormat) && o.idField in Keys(o.fieldsFormat)
    requires o.idField != "*"
    ensures GetDedup(o, GetArgs(Some([o.idField]), None)) != Get(o, GetArgs(Some([o.idField]), None))
  {
    var args := GetArgs(Some([o.idField]), None);
    GetIdFieldTwice(o, args);
    GetDedupSingleColumn(o, args, o.idField);
  }
}
