/**
 * `CommonService`: offset pagination, the two cursor paginations and the
 * construction of the next cursor.
 *
 * A cursor is `base64(utf8(JSON.stringify({ values, order })))`, where
 * `order` holds entries such as `likeCount_DESC` and `values` the last row's
 * value for each ordered column. JSON text, and what Node's Base64 decoder
 * makes of non-canonical input, are parameters of the model (`Codecs`); the
 * canonical Base64 and UTF-8 layers are modelled exactly.
 */
module CommonService {
  import opened Wrappers
  import Text
  import Base64
  import Utf8
  import opened QueryBuilder
  import CommonUtil
  import Http

  /* ---------- cursor objects ---------- */

  predicate DistinctKeys(s: seq<(string, int)>)
  {
    forall i, j :: 0 <= i < j < |s| ==> s[i].0 != s[j].0
  }

  /** A JSON object of integers, keys in insertion order. */
  type Values = s: seq<(string, int)> | DistinctKeys(s)

  datatype CursorObj = CursorObj(values: Values, order: seq<string>)

  /** `values[key]`, `undefined` when the key is absent. */
  function Lookup(values: Values, key: string): (r: Option<int>)
    ensures r.Some? <==> exists i :: 0 <= i < |values| && values[i].0 == key
    ensures forall i :: 0 <= i < |values| && values[i].0 == key ==> r == Some(values[i].1)
  {
    if values == [] then None
    else if values[0].0 == key then Some(values[0].1)
    else Lookup(values[1..], key)
  }

  /** `Object.keys(values)` */
  function Keys(values: Values): (r: seq<string>)
    ensures |r| == |values| && forall i :: 0 <= i < |r| ==> r[i] == values[i].0
  {
    seq(|values|, i requires 0 <= i < |values| => values[i].0)
  }

  /**
   * The runtime's codecs on the cursor's path: a JSON text codec for cursor
   * objects, of which only the round trip is assumed, and Node's decoding of
   * Base64 that is not canonical.
   */
  datatype Codecs = Codecs(
    stringify: CursorObj -> string,
    parse: string -> Option<CursorObj>,
    lenient: string -> seq<Base64.Byte>)

  /** JSON text of an object is never empty and parses back to the object. */
  ghost predicate Lawful(codecs: Codecs)
  {
    forall obj :: codecs.stringify(obj) != "" && codecs.parse(codecs.stringify(obj)) == Some(obj)
  }

  function EncodeCursor(codecs: Codecs, obj: CursorObj): string
  {
    Base64.Encode(Utf8.Encode(codecs.stringify(obj)))
  }

  /**
   * `None` exactly when the JSON does not parse: Node decodes any text as
   * Base64 and UTF-8 decoding replaces what it cannot read.
   */
  function DecodeCursor(codecs: Codecs, cursor: string): Option<CursorObj>
  {
    codecs.parse(Utf8.Decode(Base64.NodeDecode(cursor, codecs.lenient)))
  }

  /** A cursor handed out by the service decodes to the object it was made from. */
  lemma DecodeEncodeCursor(codecs: Codecs, obj: CursorObj)
    requires Lawful(codecs)
    ensures DecodeCursor(codecs, EncodeCursor(codecs, obj)) == Some(obj)
  {
    Base64.DecodeEncode(Utf8.Encode(codecs.stringify(obj)));
    Utf8.DecodeEncode(codecs.stringify(obj));
  }

  /* ---------- order entries ---------- */

  /** `o.split('_')[0]` */
  function ColumnOf(entry: string): string
  {
    Text.Split(entry, '_')[0]
  }

  /** `o.split('_')[1]`, `undefined` when there is no `_`. */
  function DirectionOf(entry: string): Option<string>
  {
    var parts := Text.Split(entry, '_');
    if |parts| > 1 then Some(parts[1]) else None
  }

  function ParseDirection(d: Option<string>): Option<Direction>
  {
    if d == Some("ASC") then Some(Asc) else if d == Some("DESC") then Some(Desc) else None
  }

  predicate ValidEntry(entry: string)
  {
    ParseDirection(DirectionOf(entry)).Some?
  }

  /** `column_DIRECTION` splits back into its two halves. */
  lemma EntryParts(column: string, dir: string)
    requires '_' !in column && '_' !in dir
    ensures ColumnOf(column + "_" + dir) == column && DirectionOf(column + "_" + dir) == Some(dir)
  {
    Text.SplitJoin([column, dir], '_');
    assert Text.Join([column, dir], '_') == column + "_" + dir;
  }

  /* ---------- the ordering the ORDER BY produces ---------- */

  /** Number of leading entries with a direction of `ASC` or `DESC`. */
  function ValidPrefix(order: seq<string>): (k: nat)
    ensures k <= |order|
    ensures forall j :: 0 <= j < k ==> ValidEntry(order[j])
    ensures k < |order| ==> !ValidEntry(order[k])
  {
    if order == [] || !ValidEntry(order[0]) then 0 else 1 + ValidPrefix(order[1..])
  }

  function OrderingOf(entries: seq<string>): (r: seq<(string, Direction)>)
    requires forall j :: 0 <= j < |entries| ==> ValidEntry(entries[j])
    ensures |r| == |entries|
  {
    seq(|entries|, j requires 0 <= j < |entries| && ValidEntry(entries[j]) => (ColumnOf(entries[j]), ParseDirection(DirectionOf(entries[j])).value))
  }

  /** The ordering after the first `k` entries were applied to an earlier one. */
  function OrderingAfter(prior: seq<(string, Direction)>, order: seq<string>, k: nat): seq<(string, Direction)>
    requires k <= |order| && forall j :: 0 <= j < k ==> ValidEntry(order[j])
  {
    if k == 0 then prior else OrderingOf(order[..k])
  }

  /** An entry with a direction right after the valid prefix's first `i` extends it. */
  lemma ValidPrefixStep(order: seq<string>, i: nat)
    requires i < |order| && i <= ValidPrefix(order) && ValidEntry(order[i])
    ensures i + 1 <= ValidPrefix(order)
  {
  }

  /** Applying entry `i` replaces the ordering when it is the first, and appends to it otherwise. */
  lemma OrderingStep(prior: seq<(string, Direction)>, order: seq<string>, i: nat)
    requires i < |order| && ValidEntry(order[i]) && forall j :: 0 <= j < i ==> ValidEntry(order[j])
    ensures var entry := (ColumnOf(order[i]), ParseDirection(DirectionOf(order[i])).value);
      OrderingAfter(prior, order, i + 1) == if i == 0 then [entry] else OrderingAfter(prior, order, i) + [entry]
  {
    var entry := (ColumnOf(order[i]), ParseDirection(DirectionOf(order[i])).value);
    var longer := OrderingOf(order[..i + 1]);
    if i > 0 {
      var shorter := OrderingOf(order[..i]);
      forall j | 0 <= j < i ensures longer[j] == shorter[j] {
        assert order[..i + 1][j] == order[..i][j];
      }
      assert longer == shorter + [entry];
    } else {
      assert longer == [entry];
    }
  }

  const OrderMessage := "Order에 ASC 또는 DESC 를 입력해주세요"

  /**
   * The ORDER BY loop shared by both cursor paginations: entry 0 replaces
   * the ordering, later entries are tie-breakers; the first entry whose
   * direction is neither `ASC` nor `DESC` aborts with 400, leaving the
   * entries before it applied.
   */
  method ApplyOrdering(qb: SelectQuery, order: seq<string>) returns (r: Http.Outcome<()>)
    modifies qb
    ensures r.Ok? <==> ValidPrefix(order) == |order|
    ensures r.Err? ==> r.error == Http.BadRequest(OrderMessage)
    ensures qb.ordering == OrderingAfter(old(qb.ordering), order, ValidPrefix(order))
    ensures qb.conditions == old(qb.conditions) && qb.take == old(qb.take)
    ensures qb.offset == old(qb.offset) && qb.limit == old(qb.limit)
  {
    var i := 0;
    while i < |order|
      invariant i <= ValidPrefix(order)
      invariant qb.ordering == OrderingAfter(old(qb.ordering), order, i)
      invariant qb.conditions == old(qb.conditions) && qb.take == old(qb.take)
      invariant qb.offset == old(qb.offset) && qb.limit == old(qb.limit)
    {
      var column, direction := ColumnOf(order[i]), ParseDirection(DirectionOf(order[i]));
      if direction.None? {
        return Err(Http.BadRequest(OrderMessage));
      }
      ValidPrefixStep(order, i);
      OrderingStep(old(qb.ordering), order, i);
      if i < 1 {
        qb.OrderBy(column, direction.value);
      } else {
        qb.AddOrderBy(column, direction.value);
      }
      i := i + 1;
    }
    return Ok(());
  }

  /* ---------- offset pagination ---------- */

  /** OFFSET/LIMIT as in `CommonUtil`, plus `ORDER BY alias.id <order>`. */
  method ApplyPagePagination(qb: SelectQuery, page: int, limit: int, order: Direction)
    modifies qb
    ensures qb.offset == Some(CommonUtil.PageOffset(page, limit)) && qb.limit == Some(limit)
    ensures qb.ordering == [("id", order)]
    ensures qb.conditions == old(qb.conditions) && qb.take == old(qb.take)
  {
    qb.Offset(CommonUtil.PageOffset(page, limit));
    qb.Limit(limit);
    qb.OrderBy("id", order);
  }

  /* ---------- keyset filter (OR of ANDs) ---------- */

  predicate IsDesc(entry: string)
  {
    DirectionOf(entry) == Some("DESC")
  }

  /** Anything but `DESC` compares with `>`. */
  function KeysetOp(entry: string): Op
  {
    if IsDesc(entry) then Lt else Gt
  }

  /** `c0 = :c0 AND ... AND c(i-1) = :c(i-1)` */
  function EqualPrefix(order: seq<string>, i: nat): (r: seq<Comparison>)
    requires i <= |order|
    ensures |r| == i
  {
    seq(i, j requires 0 <= j < i => Comparison(ColumnOf(order[j]), Eq))
  }

  /** The `i`-th disjunct: the earlier columns tie and column `i` is beyond. */
  function Branch(order: seq<string>, i: nat): seq<Comparison>
    requires i < |order|
  {
    EqualPrefix(order, i) + [Comparison(ColumnOf(order[i]), KeysetOp(order[i]))]
  }

  function ColumnSet(order: seq<string>): set<string>
  {
    set j | 0 <= j < |order| :: ColumnOf(order[j])
  }

  /** `params[col] = values[col]` for every ordered column. */
  function KeysetParams(order: seq<string>, values: Values): (r: Params)
    ensures forall j :: 0 <= j < |order| ==> ColumnOf(order[j]) in r && r[ColumnOf(order[j])] == Lookup(values, ColumnOf(order[j]))
  {
    map c | c in ColumnSet(order) :: Lookup(values, c)
  }

  function KeysetFilter(order: seq<string>, values: Values): Condition
  {
    AnyOf(seq(|order|, i requires 0 <= i < |order| => Branch(order, i)), KeysetParams(order, values))
  }

  /** How the `cursor` field of the request reads: `Malformed` when its JSON does not parse. */
  datatype CursorInput = NoCursor | Malformed | Decoded(obj: CursorObj)

  /** `if (cursor)` skips both an absent and an empty cursor. */
  function ReadCursor(codecs: Codecs, cursor: Option<string>): CursorInput
  {
    if cursor.None? || cursor.value == "" then NoCursor
    else match DecodeCursor(codecs, cursor.value)
      case None => Malformed
      case Some(obj) => Decoded(obj)
  }

  /**
   * A cursor that is not canonical Base64 is not refused: it is read from
   * whatever bytes Node's decoder makes of it.
   */
  lemma NonCanonicalCursorIsRead(codecs: Codecs, cursor: string, obj: CursorObj)
    requires cursor != "" && Base64.Decode(cursor).None?
    requires codecs.parse(Utf8.Decode(codecs.lenient(cursor))) == Some(obj)
    ensures ReadCursor(codecs, Some(cursor)) == Decoded(obj)
  {
  }

  /** The cursor's own `order` overrides the requested one. */
  function EffectiveOrder(input: CursorInput, order: seq<string>): seq<string>
  {
    if input.Decoded? then input.obj.order else order
  }

  lemma EqualPrefixStep(order: seq<string>, i: nat)
    requires i < |order|
    ensures EqualPrefix(order, i) + [Comparison(ColumnOf(order[i]), Eq)] == EqualPrefix(order, i + 1)
  {
  }

  lemma BranchesStep(order: seq<string>, i: nat, branches: seq<seq<Comparison>>)
    requires i < |order|
    requires branches == seq(i, j requires 0 <= j < i => Branch(order, j))
    ensures branches + [Branch(order, i)] == seq(i + 1, j requires 0 <= j < i + 1 => Branch(order, j))
  {
  }

  lemma ParamsStep(order: seq<string>, i: nat, values: Values, params: Params)
    requires i < |order|
    requires params == map c | c in ColumnSet(order[..i]) :: Lookup(values, c)
    ensures params[ColumnOf(order[i]) := Lookup(values, ColumnOf(order[i]))] == map c | c in ColumnSet(order[..i + 1]) :: Lookup(values, c)
  {
    assert ColumnSet(order[..i + 1]) == ColumnSet(order[..i]) + {ColumnOf(order[i])} by {
      assert order[..i + 1][i] == order[i];
      assert forall j :: 0 <= j < i ==> order[..i + 1][j] == order[..i][j];
    }
  }

  /** The keyset filter built step by step, one order entry at a time. */
  method BuildKeysetFilter(order: seq<string>, values: Values) returns (c: Condition)
    ensures c == KeysetFilter(order, values)
  {
    var branches: seq<seq<Comparison>> := [];
    var params: Params := map[];
    var prev: seq<Comparison> := [];
    var i := 0;
    while i < |order|
      invariant i <= |order|
      invariant prev == EqualPrefix(order, i)
      invariant branches == seq(i, j requires 0 <= j < i => Branch(order, j))
      invariant params == map c | c in ColumnSet(order[..i]) :: Lookup(values, c)
    {
      var column := ColumnOf(order[i]);
      BranchesStep(order, i, branches);
      ParamsStep(order, i, values, params);
      EqualPrefixStep(order, i);
      branches := branches + [prev + [Comparison(column, KeysetOp(order[i]))]];
      params := params[column := Lookup(values, column)];
      prev := prev + [Comparison(column, Eq)];
      i := i + 1;
    }
    assert order[..i] == order;
    c := AnyOf(branches, params);
  }

  /**
   * `applyCursorPaginationParamsToQb`. Without a cursor the filters are
   * left alone and the requested order is used; with one, its embedded
   * order replaces the requested one and the keyset filter is added with
   * AND. A cursor whose JSON does not parse ends in a non-HTTP error before
   * the builder is touched.
   */
  method ApplyCursorPagination(qb: SelectQuery, codecs: Codecs, cursor: Option<string>, order: seq<string>, take: int)
    returns (r: Http.Outcome<()>)
    modifies qb
    ensures ReadCursor(codecs, cursor).Malformed? ==>
      r == Err(Http.Fault("SyntaxError")) && qb.conditions == old(qb.conditions) && qb.ordering == old(qb.ordering) && qb.take == old(qb.take)
    ensures ReadCursor(codecs, cursor).NoCursor? ==> qb.conditions == old(qb.conditions)
    ensures ReadCursor(codecs, cursor).Decoded? ==>
      qb.conditions == old(qb.conditions) + [KeysetFilter(ReadCursor(codecs, cursor).obj.order, ReadCursor(codecs, cursor).obj.values)]
    ensures !ReadCursor(codecs, cursor).Malformed? ==>
      var effective := EffectiveOrder(ReadCursor(codecs, cursor), order);
      && (r.Ok? <==> ValidPrefix(effective) == |effective|)
      && (r.Err? ==> r.error == Http.BadRequest(OrderMessage))
      && qb.ordering == OrderingAfter(old(qb.ordering), effective, ValidPrefix(effective))
      && qb.take == (if r.Ok? then Some(take) else old(qb.take))
    ensures qb.offset == old(qb.offset) && qb.limit == old(qb.limit)
  {
    var input := ReadCursor(codecs, cursor);
    if input.Malformed? {
      return Err(Http.Fault("SyntaxError"));
    }
    var effective := EffectiveOrder(input, order);
    if input.Decoded? {
      var filter := BuildKeysetFilter(input.obj.order, input.obj.values);
      qb.AndWhere(filter);
    }
    r := ApplyOrdering(qb, effective);
    if r.Ok? {
      qb.Take(take);
    }
  }

  /* ---------- the tuple-comparison variant ---------- */

  /** `order.some((o) => o.endsWith('DESC')) ? '<' : '>'` */
  function TupleOp(order: seq<string>): Op
  {
    if exists j | 0 <= j < |order| :: Text.EndsWith(order[j], "DESC") then Lt else Gt
  }

  function KeySet(values: Values): set<string>
  {
    set i | 0 <= i < |values| :: values[i].0
  }

  /** The cursor's `values` object passed as the parameter record. */
  function ToParams(values: Values): (r: Params)
    ensures forall i :: 0 <= i < |values| ==> values[i].0 in r && r[values[i].0] == Some(values[i].1)
  {
    map k | k in KeySet(values) :: Lookup(values, k)
  }

  /**
   * `applyComplexComparisonCursorPaginationParamsToQb`: like the keyset
   * variant, but the filter is one row-value comparison over the cursor's
   * keys with a single operator, and it REPLACES every earlier filter.
   */
  method ApplyTupleCursorPagination(qb: SelectQuery, codecs: Codecs, cursor: Option<string>, order: seq<string>, take: int)
    returns (r: Http.Outcome<()>)
    modifies qb
    ensures ReadCursor(codecs, cursor).Malformed? ==>
      r == Err(Http.Fault("SyntaxError")) && qb.conditions == old(qb.conditions) && qb.ordering == old(qb.ordering) && qb.take == old(qb.take)
    ensures ReadCursor(codecs, cursor).NoCursor? ==> qb.conditions == old(qb.conditions)
    ensures ReadCursor(codecs, cursor).Decoded? ==>
      var obj := ReadCursor(codecs, cursor).obj;
      qb.conditions == [RowValue(Keys(obj.values), TupleOp(obj.order), ToParams(obj.values))]
    ensures !ReadCursor(codecs, cursor).Malformed? ==>
      var effective := EffectiveOrder(ReadCursor(codecs, cursor), order);
      && (r.Ok? <==> ValidPrefix(effective) == |effective|)
      && (r.Err? ==> r.error == Http.BadRequest(OrderMessage))
      && qb.ordering == OrderingAfter(old(qb.ordering), effective, ValidPrefix(effective))
      && qb.take == (if r.Ok? then Some(take) else old(qb.take))
    ensures qb.offset == old(qb.offset) && qb.limit == old(qb.limit)
  {
    var input := ReadCursor(codecs, cursor);
    if input.Malformed? {
      return Err(Http.Fault("SyntaxError"));
    }
    var effective := EffectiveOrder(input, order);
    if input.Decoded? {
      var values := input.obj.values;
      qb.Where(RowValue(Keys(values), TupleOp(effective), ToParams(values)));
    }
    r := ApplyOrdering(qb, effective);
    if r.Ok? {
      qb.Take(take);
    }
  }

  /* ---------- the next cursor ---------- */

  lemma LookupAppend(acc: Values, key: string, value: int, c: string)
    requires Lookup(acc, key).None?
    ensures DistinctKeys(acc + [(key, value)])
    ensures Lookup(acc + [(key, value)], c) == if Lookup(acc, c).Some? then Lookup(acc, c) else if c == key then Some(value) else None
  {
    var s := acc + [(key, value)];
    assert s[|acc|] == (key, value);
    if Lookup(acc, c).Some? {
      var i :| 0 <= i < |acc| && acc[i].0 == c;
      assert s[i] == acc[i];
    }
  }

  /**
   * `values[column] = lastItem[column]` for each entry in turn. A column the
   * row lacks gets `undefined`, which `JSON.stringify` drops, so it is not
   * recorded; a repeated column keeps its first position.
   */
  function ProjectInto(row: Row, order: seq<string>, acc: Values): Values
  {
    if order == [] then acc
    else
      var c := ColumnOf(order[0]);
      if c in row && Lookup(acc, c).None? then
        LookupAppend(acc, c, row[c], c);
        ProjectInto(row, order[1..], acc + [(c, row[c])])
      else ProjectInto(row, order[1..], acc)
  }

  function Project(row: Row, order: seq<string>): Values
  {
    ProjectInto(row, order, [])
  }

  /** `generateNextCursor`: `null` for an empty page, else the last row's cursor. */
  function GenerateNextCursor(codecs: Codecs, results: seq<Row>, order: seq<string>): (r: Option<string>)
    ensures r.None? <==> results == []
  {
    if |results| == 0 then None
    else Some(EncodeCursor(codecs, CursorObj(Project(results[|results| - 1], order), order)))
  }

  lemma {:induction false} ProjectIntoLookup(row: Row, order: seq<string>, acc: Values, c: string)
    ensures Lookup(ProjectInto(row, order, acc), c) ==
      if Lookup(acc, c).Some? then Lookup(acc, c)
      else if c in ColumnSet(order) && c in row then Some(row[c])
      else None
    decreases |order|
  {
    if order != [] {
      var k := ColumnOf(order[0]);
      assert ColumnSet(order) == {k} + ColumnSet(order[1..]) by {
        forall j | 0 <= j < |order[1..]| ensures order[1..][j] == order[j + 1] { }
        assert forall x :: x in ColumnSet(order) ==> x == k || x in ColumnSet(order[1..]);
      }
      if k in row && Lookup(acc, k).None? {
        LookupAppend(acc, k, row[k], c);
        ProjectIntoLookup(row, order[1..], acc + [(k, row[k])], c);
      } else {
        ProjectIntoLookup(row, order[1..], acc, c);
      }
    }
  }

  /** The projected values hold the row's value for each ordered column it has, and nothing else. */
  lemma ProjectLookup(row: Row, order: seq<string>, c: string)
    ensures Lookup(Project(row, order), c) == if c in ColumnSet(order) && c in row then Some(row[c]) else None
  {
    ProjectIntoLookup(row, order, [], c);
  }

  lemma EncodedCursorNonEmpty(codecs: Codecs, obj: CursorObj)
    requires Lawful(codecs)
    ensures EncodeCursor(codecs, obj) != ""
  {
    var bytes := Utf8.Encode(codecs.stringify(obj));
    assert |bytes| >= 1;
    assert |Base64.Encode(bytes)| >= 4;
  }

  /**
   * The next cursor reads back as a cursor (it is not empty) whose order is
   * the order it was made with and whose values are the last row's values
   * on the ordered columns.
   */
  lemma NextCursorDecodes(codecs: Codecs, results: seq<Row>, order: seq<string>)
    requires Lawful(codecs) && results != []
    ensures var input := ReadCursor(codecs, GenerateNextCursor(codecs, results, order));
      var last := results[|results| - 1];
      && input.Decoded?
      && input.obj.order == order
      && (forall c :: Lookup(input.obj.values, c) == if c in ColumnSet(order) && c in last then Some(last[c]) else None)
  {
    var last := results[|results| - 1];
    var obj := CursorObj(Project(last, order), order);
    EncodedCursorNonEmpty(codecs, obj);
    DecodeEncodeCursor(codecs, obj);
    forall c ensures Lookup(obj.values, c) == if c in ColumnSet(order) && c in last then Some(last[c]) else None {
      ProjectLookup(last, order, c);
    }
  }

  /* ---------- the lexicographic reference order ---------- */

  /** Where one sort key lies relative to another in the ORDER BY sequence. */
  datatype Position = Before | Same | After

  /** `x` comes strictly later than `y` in one column's direction. */
  predicate Beyond(x: int, y: int, desc: bool)
  {
    if desc then x < y else x > y
  }

  function Compare(x: seq<int>, y: seq<int>, desc: seq<bool>): Position
    requires |x| == |y| == |desc|
  {
    if x == [] then Same
    else if x[0] != y[0] then (if Beyond(x[0], y[0], desc[0]) then After else Before)
    else Compare(x[1..], y[1..], desc[1..])
  }

  predicate TiesBefore(x: seq<int>, y: seq<int>, i: int)
    requires 0 <= i <= |x| && i <= |y|
  {
    forall j :: 0 <= j < i ==> x[j] == y[j]
  }

  lemma {:induction false} CompareSameIff(x: seq<int>, y: seq<int>, desc: seq<bool>)
    requires |x| == |y| == |desc|
    ensures Compare(x, y, desc) == Same <==> x == y
    decreases |x|
  {
    if x != [] && x[0] == y[0] {
      CompareSameIff(x[1..], y[1..], desc[1..]);
      if x[1..] == y[1..] {
        assert x == [x[0]] + x[1..] && y == [y[0]] + y[1..];
      }
    }
  }

  lemma {:induction false} CompareFlip(x: seq<int>, y: seq<int>, desc: seq<bool>)
    requires |x| == |y| == |desc|
    ensures Compare(x, y, desc) == After <==> Compare(y, x, desc) == Before
    decreases |x|
  {
    if x != [] && x[0] == y[0] {
      CompareFlip(x[1..], y[1..], desc[1..]);
    }
  }

  lemma {:induction false} CompareTransitive(x: seq<int>, y: seq<int>, z: seq<int>, desc: seq<bool>)
    requires |x| == |y| == |z| == |desc|
    requires Compare(x, y, desc) == After && Compare(y, z, desc) == After
    ensures Compare(x, z, desc) == After
    decreases |x|
  {
    if x[0] == y[0] && y[0] == z[0] {
      CompareTransitive(x[1..], y[1..], z[1..], desc[1..]);
    }
  }

  /** After means: equal on a prefix, then beyond on the next column. */
  lemma {:induction false} CompareAfterAt(x: seq<int>, y: seq<int>, desc: seq<bool>)
    requires |x| == |y| == |desc|
    ensures Compare(x, y, desc) == After <==>
      exists i :: 0 <= i < |x| && TiesBefore(x, y, i) && Beyond(x[i], y[i], desc[i])
    decreases |x|
  {
    if x == [] {
    } else if x[0] != y[0] {
      assert TiesBefore(x, y, 0);
      assert forall i :: 0 < i <= |x| ==> !TiesBefore(x, y, i);
    } else {
      var x', y', d' := x[1..], y[1..], desc[1..];
      CompareAfterAt(x', y', d');
      if Compare(x, y, desc) == After {
        var i :| 0 <= i < |x'| && TiesBefore(x', y', i) && Beyond(x'[i], y'[i], d'[i]);
        assert TiesBefore(x, y, i + 1) by {
          forall j | 0 < j < i + 1 ensures x[j] == y[j] {
            assert x'[j - 1] == y'[j - 1];
          }
        }
        assert Beyond(x[i + 1], y[i + 1], desc[i + 1]);
      }
      if exists i :: 0 <= i < |x| && TiesBefore(x, y, i) && Beyond(x[i], y[i], desc[i]) {
        var i :| 0 <= i < |x| && TiesBefore(x, y, i) && Beyond(x[i], y[i], desc[i]);
        assert i != 0;
        assert TiesBefore(x', y', i - 1) by {
          forall j | 0 <= j < i - 1 ensures x'[j] == y'[j] {
            assert x[j + 1] == y[j + 1];
          }
        }
        assert Beyond(x'[i - 1], y'[i - 1], d'[i - 1]);
      }
    }
  }

  /* ---------- the keyset filter means "strictly after the cursor" ---------- */

  predicate HasColumns(row: Row, order: seq<string>)
  {
    forall j :: 0 <= j < |order| ==> ColumnOf(order[j]) in row
  }

  predicate CoversOrder(values: Values, order: seq<string>)
  {
    forall j :: 0 <= j < |order| ==> Lookup(values, ColumnOf(order[j])).Some?
  }

  /** The row's sort key under the order. */
  function RowKey(row: Row, order: seq<string>): (k: seq<int>)
    requires HasColumns(row, order)
    ensures |k| == |order|
  {
    seq(|order|, j requires 0 <= j < |order| => row[ColumnOf(order[j])])
  }

  /** The cursor's sort key under the order. */
  function CursorKey(values: Values, order: seq<string>): (k: seq<int>)
    requires CoversOrder(values, order)
    ensures |k| == |order|
  {
    seq(|order|, j requires 0 <= j < |order| => Lookup(values, ColumnOf(order[j])).value)
  }

  function Descending(order: seq<string>): (d: seq<bool>)
    ensures |d| == |order|
  {
    seq(|order|, j requires 0 <= j < |order| => IsDesc(order[j]))
  }

  /** Disjunct `i` holds exactly when the keys tie before `i` and the row is beyond at `i`. */
  lemma BranchMeaning(row: Row, order: seq<string>, values: Values, i: nat)
    requires HasColumns(row, order) && CoversOrder(values, order) && i < |order|
    ensures AllHold(row, Branch(order, i), KeysetParams(order, values)) <==>
      TiesBefore(RowKey(row, order), CursorKey(values, order), i) &&
      Beyond(RowKey(row, order)[i], CursorKey(values, order)[i], Descending(order)[i])
  {
    var params, branch := KeysetParams(order, values), Branch(order, i);
    var x, y := RowKey(row, order), CursorKey(values, order);
    assert forall j :: 0 <= j < i ==> branch[j] == Comparison(ColumnOf(order[j]), Eq);
    assert branch[i] == Comparison(ColumnOf(order[i]), KeysetOp(order[i]));
    assert forall j :: 0 <= j <= i ==> (ComparisonHolds(row, branch[j], params) <==>
      if j < i then x[j] == y[j] else Beyond(x[i], y[i], Descending(order)[i]));
  }

  /**
   * The main property: with a row and a cursor that both carry every
   * ordered column, the keyset filter holds exactly when the row comes
   * strictly after the cursor in the lexicographic order the ORDER BY
   * clause sorts by.
   */
  lemma KeysetMeansStrictlyAfter(row: Row, order: seq<string>, values: Values, text: map<string, string>)
    requires HasColumns(row, order) && CoversOrder(values, order)
    ensures Holds(row, KeysetFilter(order, values), text) <==>
      Compare(RowKey(row, order), CursorKey(values, order), Descending(order)) == After
  {
    var x, y, d := RowKey(row, order), CursorKey(values, order), Descending(order);
    var filter := KeysetFilter(order, values);
    CompareAfterAt(x, y, d);
    forall i | 0 <= i < |order|
      ensures AllHold(row, filter.branches[i], filter.params) <==> TiesBefore(x, y, i) && Beyond(x[i], y[i], d[i])
    {
      BranchMeaning(row, order, values, i);
    }
  }

  /**
   * Paging: the filter built from the next cursor of a page admits exactly
   * the rows that sort strictly after that page's last row.
   */
  lemma NextPageStartsAfterLastRow(codecs: Codecs, results: seq<Row>, order: seq<string>, row: Row, text: map<string, string>)
    requires Lawful(codecs) && results != []
    requires HasColumns(results[|results| - 1], order) && HasColumns(row, order)
    ensures var input := ReadCursor(codecs, GenerateNextCursor(codecs, results, order));
      && input.Decoded?
      && (Holds(row, KeysetFilter(input.obj.order, input.obj.values), text) <==>
          Compare(RowKey(row, order), RowKey(results[|results| - 1], order), Descending(order)) == After)
  {
    var last := results[|results| - 1];
    NextCursorDecodes(codecs, results, order);
    var input := ReadCursor(codecs, GenerateNextCursor(codecs, results, order));
    var values := input.obj.values;
    assert forall j :: 0 <= j < |order| ==> ColumnOf(order[j]) in ColumnSet(order);
    assert CoversOrder(values, order);
    assert CursorKey(values, order) == RowKey(last, order);
    KeysetMeansStrictlyAfter(row, order, values, text);
  }

  /* ---------- the tuple variant agrees when all directions are equal ---------- */

  function Columns(order: seq<string>): (cs: seq<string>)
    ensures |cs| == |order|
  {
    seq(|order|, j requires 0 <= j < |order| => ColumnOf(order[j]))
  }

  predicate DistinctColumns(order: seq<string>)
  {
    forall i, j :: 0 <= i < j < |order| ==> ColumnOf(order[i]) != ColumnOf(order[j])
  }

  function Pick(row: Row, columns: seq<string>): (k: seq<int>)
    requires forall j :: 0 <= j < |columns| ==> columns[j] in row
    ensures |k| == |columns|
  {
    seq(|columns|, j requires 0 <= j < |columns| => row[columns[j]])
  }

  function Uniform(n: nat, desc: bool): (d: seq<bool>)
    ensures |d| == n
  {
    seq(n, _ => desc)
  }

  /** A row-value comparison is the lexicographic order with one direction for every column. */
  lemma {:induction false} RowValueMeaning(row: Row, columns: seq<string>, op: Op, params: Params, ys: seq<int>, desc: bool)
    requires op == (if desc then Lt else Gt) && |ys| == |columns|
    requires forall j :: 0 <= j < |columns| ==> columns[j] in row && columns[j] in params && params[columns[j]] == Some(ys[j])
    ensures RowValueHolds(row, columns, op, params) <==> Compare(Pick(row, columns), ys, Uniform(|columns|, desc)) == After
    decreases |columns|
  {
    if columns != [] {
      assert Pick(row, columns)[1..] == Pick(row, columns[1..]);
      assert Uniform(|columns|, desc)[1..] == Uniform(|columns| - 1, desc);
      RowValueMeaning(row, columns[1..], op, params, ys[1..], desc);
    }
  }

  lemma {:induction false} ProjectIntoKeys(row: Row, order: seq<string>, acc: Values)
    requires DistinctColumns(order) && HasColumns(row, order)
    requires forall j :: 0 <= j < |order| ==> Lookup(acc, ColumnOf(order[j])).None?
    ensures Keys(ProjectInto(row, order, acc)) == Keys(acc) + Columns(order)
    decreases |order|
  {
    if order != [] {
      var c := ColumnOf(order[0]);
      LookupAppend(acc, c, row[c], c);
      var acc': Values := acc + [(c, row[c])];
      ProjectIntoFresh(row, order, acc);
      ProjectIntoKeys(row, order[1..], acc');
      assert Keys(acc') == Keys(acc) + [c];
      assert Columns(order) == [c] + Columns(order[1..]);
    }
  }

  /** After the first column is added, the remaining columns are still missing from the accumulator. */
  lemma ProjectIntoFresh(row: Row, order: seq<string>, acc: Values)
    requires order != [] && DistinctColumns(order) && HasColumns(row, order)
    requires forall j :: 0 <= j < |order| ==> Lookup(acc, ColumnOf(order[j])).None?
    ensures var c := ColumnOf(order[0]);
      && DistinctKeys(acc + [(c, row[c])])
      && DistinctColumns(order[1..]) && HasColumns(row, order[1..])
      && (forall j :: 0 <= j < |order[1..]| ==> Lookup(acc + [(c, row[c])], ColumnOf(order[1..][j])).None?)
  {
    var c := ColumnOf(order[0]);
    LookupAppend(acc, c, row[c], c);
    forall j | 0 <= j < |order[1..]| ensures Lookup(acc + [(c, row[c])], ColumnOf(order[1..][j])).None? {
      assert order[1..][j] == order[j + 1];
      LookupAppend(acc, c, row[c], ColumnOf(order[j + 1]));
    }
  }

  /** An entry split into exactly `column` and `dir` is `column_dir`. */
  lemma EntryShape(entry: string, dir: string)
    requires Text.Split(entry, '_') == [ColumnOf(entry), dir]
    ensures entry == ColumnOf(entry) + "_" + dir
  {
    Text.JoinSplit(entry, '_');
  }

  lemma TupleOpOfUniform(order: seq<string>, dir: string)
    requires dir == "ASC" || dir == "DESC"
    requires |order| > 0
    requires forall j :: 0 <= j < |order| ==> Text.Split(order[j], '_') == [ColumnOf(order[j]), dir]
    ensures TupleOp(order) == if dir == "DESC" then Lt else Gt
  {
    forall j | 0 <= j < |order| ensures Text.EndsWith(order[j], "DESC") <==> dir == "DESC" {
      EntryShape(order[j], dir);
      var e := order[j];
      if dir == "ASC" {
        assert e[|e| - 4..] == "_ASC";
      }
    }
    assert Text.EndsWith(order[0], "DESC") <==> dir == "DESC";
  }

  /** The values projected from a row that has every ordered column give back its sort key. */
  lemma ProjectedKey(last: Row, order: seq<string>)
    requires HasColumns(last, order)
    ensures CoversOrder(Project(last, order), order)
    ensures CursorKey(Project(last, order), order) == RowKey(last, order)
  {
    var values := Project(last, order);
    forall j | 0 <= j < |order| ensures Lookup(values, ColumnOf(order[j])) == Some(last[ColumnOf(order[j])]) {
      assert ColumnOf(order[j]) in ColumnSet(order);
      ProjectLookup(last, order, ColumnOf(order[j]));
    }
  }

  /** With distinct columns the projected values, as parameters, bind each column to the row's value. */
  lemma ProjectedParams(last: Row, order: seq<string>)
    requires DistinctColumns(order) && HasColumns(last, order)
    ensures Keys(Project(last, order)) == Columns(order)
    ensures forall j :: 0 <= j < |order| ==>
      Columns(order)[j] in ToParams(Project(last, order)) && ToParams(Project(last, order))[Columns(order)[j]] == Some(RowKey(last, order)[j])
  {
    var values := Project(last, order);
    ProjectIntoKeys(last, order, []);
    assert Keys(values) == Columns(order);
    ProjectedKey(last, order);
    forall j | 0 <= j < |order| ensures Columns(order)[j] in ToParams(values) && ToParams(values)[Columns(order)[j]] == Some(RowKey(last, order)[j]) {
      assert values[j].0 == Columns(order)[j];
      assert Lookup(values, ColumnOf(order[j])) == Some(values[j].1);
      assert CursorKey(values, order)[j] == values[j].1;
    }
  }

  lemma UniformDescending(order: seq<string>, dir: string)
    requires forall j :: 0 <= j < |order| ==> Text.Split(order[j], '_') == [ColumnOf(order[j]), dir]
    ensures Descending(order) == Uniform(|order|, dir == "DESC")
  {
    forall j | 0 <= j < |order| ensures IsDesc(order[j]) == (dir == "DESC") { }
  }

  /**
   * For a cursor made from a row, when every entry is exactly `column_dir`
   * with the same `dir` and no column repeats, the single row-value
   * comparison selects the same rows as the keyset filter.
   */
  lemma TupleAgreesWhenUniform(row: Row, last: Row, order: seq<string>, dir: string, text: map<string, string>)
    requires dir == "ASC" || dir == "DESC"
    requires forall j :: 0 <= j < |order| ==> Text.Split(order[j], '_') == [ColumnOf(order[j]), dir]
    requires DistinctColumns(order) && HasColumns(row, order) && HasColumns(last, order)
    ensures var values := Project(last, order);
      Holds(row, RowValue(Keys(values), TupleOp(order), ToParams(values)), text) <==> Holds(row, KeysetFilter(order, values), text)
  {
    var values := Project(last, order);
    ProjectedKey(last, order);
    ProjectedParams(last, order);
    if order != [] {
      TupleOpOfUniform(order, dir);
      UniformDescending(order, dir);
      RowValueMeaning(row, Columns(order), TupleOp(order), ToParams(values), RowKey(last, order), dir == "DESC");
      PickColumns(row, order);
      KeysetMeansStrictlyAfter(row, order, values, text);
    }
  }

  /** Picking the ordered columns of a row gives its sort key. */
  lemma PickColumns(row: Row, order: seq<string>)
    requires HasColumns(row, order)
    ensures forall j :: 0 <= j < |Columns(order)| ==> Columns(order)[j] in row
    ensures Pick(row, Columns(order)) == RowKey(row, order)
  {
  }
}
