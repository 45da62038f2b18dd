/**
 The listing feed's column layout. The header row is an externally supplied
 list of column names; the transformer looks up, by first occurrence, the
 position of each of the 26 columns it fills and keeps them in its
 `indexes` table. A header that lacks one of them makes the lookup fail, as
 Python's `list.index` does.
 */
module Schema {

  /**
   The columns the transformer fills, in the order a record's row assigns
   them: 22 field and policy columns, then the four photo slots.
   */
  const Columns: seq<string> := [
    "externalID", "name", "status", "type", "sex", "age", "specialNeeds", "size",
    "coatLength", "courtesy", "found", "mix", "priBreed", "color", "okwithdogs",
    "okwithcats", "okwithkids", "declawed", "housebroken", "altered", "uptodate",
    "dsc", "photo1", "photo2", "photo3", "photo4"]

  /** Keys of the `indexes` table: `indexes[k]` is the position of `Columns[k]`. */
  const IdKey: nat := 0
  const NameKey: nat := 1
  const StatusKey: nat := 2
  const SpeciesKey: nat := 3
  const SexKey: nat := 4
  const AgeKey: nat := 5
  const NeedsKey: nat := 6
  const SizeKey: nat := 7
  const LengthKey: nat := 8
  const CourtesyKey: nat := 9
  const FoundKey: nat := 10
  const MixKey: nat := 11
  const BreedKey: nat := 12
  const ColorKey: nat := 13
  const OkDogKey: nat := 14
  const OkCatKey: nat := 15
  const OkKidKey: nat := 16
  const DeclawedKey: nat := 17
  const HouseKey: nat := 18
  const FixedKey: nat := 19
  const UtdKey: nat := 20
  const DscKey: nat := 21
  const Photo1Key: nat := 22
  const Photo2Key: nat := 23
  const Photo3Key: nat := 24
  const Photo4Key: nat := 25

  /** Number of field and policy columns; the photo slots follow them. */
  const FieldCount: nat := 22

  /**
   The order in which the handler's `indexes` dict literal performs its 26
   lookups: the i-th lookup is that of key `LookupKeys[i]`. The first lookup
   that fails is the one whose error escapes.
   */
  const LookupKeys: seq<nat> := [
    IdKey, NameKey, StatusKey, SpeciesKey, BreedKey, MixKey, SexKey, OkDogKey, OkCatKey,
    OkKidKey, DeclawedKey, HouseKey, AgeKey, NeedsKey, FixedKey, SizeKey, UtdKey, ColorKey,
    LengthKey, CourtesyKey, DscKey, FoundKey, Photo1Key, Photo2Key, Photo3Key, Photo4Key]

  /** The inverse of `LookupKeys`: key `k` is looked up `LookupPos[k]`-th. */
  const LookupPos: seq<nat> := [
    0, 1, 2, 3, 6, 12, 13, 15, 18, 19, 21, 5, 4, 17, 7, 8, 9, 10, 11, 14, 16, 20, 22, 23, 24, 25]

  /** `LookupKeys` and `LookupPos` are inverse permutations of the 26 keys. */
  lemma LookupPermutes()
    ensures |LookupKeys| == |LookupPos| == |Columns|
    ensures forall i :: 0 <= i < |LookupKeys| ==> LookupKeys[i] < |Columns| && LookupPos[LookupKeys[i]] == i
    ensures forall k :: 0 <= k < |LookupPos| ==> LookupPos[k] < |Columns| && LookupKeys[LookupPos[k]] == k
  {
  }

  /** The column names in lookup order. */
  function LookupOrder(): (order: seq<string>)
    ensures |order| == |Columns|
    ensures forall i :: 0 <= i < |order| ==> LookupKeys[i] < |Columns| && order[i] == Columns[LookupKeys[i]]
    ensures forall k :: 0 <= k < |Columns| ==> LookupPos[k] < |order| && order[LookupPos[k]] == Columns[k]
  {
    LookupPermutes();
    var order := seq(|LookupKeys|, i requires 0 <= i < |LookupKeys| => Columns[LookupKeys[i]]);
    assert forall k :: 0 <= k < |Columns| ==> order[LookupPos[k]] == Columns[k];
    order
  }

  /** Looking up the columns in lookup order looks up exactly the filled columns. */
  lemma LookupOrderColumns()
    ensures forall c :: c in LookupOrder() <==> c in Columns
  {
    var order := LookupOrder();
    forall c | c in Columns
      ensures c in order
    {
      var k :| 0 <= k < |Columns| && Columns[k] == c;
      assert order[LookupPos[k]] == c;
    }
  }

  datatype Error = ColumnNotFound(column: string)

  datatype Result<+T> = Ok(value: T) | Err(error: Error)
  {
    predicate IsFailure()
    {
      Err?
    }

    function PropagateFailure<U>(): Result<U>
      requires Err?
    {
      Err(error)
    }

    function Extract(): T
      requires Ok?
    {
      value
    }
  }

  /** `i` is the first position of `column` in `headers`. */
  ghost predicate FirstAt(headers: seq<string>, column: string, i: nat)
  {
    i < |headers| && headers[i] == column && column !in headers[..i]
  }

  /** Each entry of `indexes` is the first position of its column. */
  ghost predicate Fits(headers: seq<string>, indexes: seq<nat>)
  {
    |indexes| == |Columns| && forall k :: 0 <= k < |Columns| ==> FirstAt(headers, Columns[k], indexes[k])
  }

  ghost predicate Distinct(slots: seq<nat>)
  {
    forall j, k :: 0 <= j < k < |slots| ==> slots[j] != slots[k]
  }

  /**
   What the row builders need of `indexes` for rows of `width` cells: one
   in-range position per filled column, pairwise distinct.
   */
  ghost predicate Valid(indexes: seq<nat>, width: nat)
  {
    && |indexes| == |Columns|
    && (forall k :: 0 <= k < |indexes| ==> indexes[k] < width)
    && Distinct(indexes)
  }

  /** Python's `headers.index(column)`: the first position, or a failure. */
  function IndexOf(headers: seq<string>, column: string): (r: Result<nat>)
    ensures r.Ok? <==> column in headers
    ensures r.Ok? ==> FirstAt(headers, column, r.value)
    ensures r.Err? ==> r.error == ColumnNotFound(column)
  {
    if headers == [] then Err(ColumnNotFound(column))
    else if headers[0] == column then Ok(0)
    else
      match IndexOf(headers[1..], column)
      case Ok(i) => Ok(i + 1)
      case Err(e) => Err(e)
  }

  /**
   `columns[j]` is the first of `columns` the header lacks: every column
   before it is present.
   */
  ghost predicate FirstMissingAt(headers: seq<string>, columns: seq<string>, j: nat)
  {
    j < |columns| && columns[j] !in headers && forall i :: 0 <= i < j ==> columns[i] in headers
  }

  /** `headers.index(c)` for each column `c` in turn; the first miss aborts. */
  function IndexAll(headers: seq<string>, columns: seq<string>): (r: Result<seq<nat>>)
    ensures r.Ok? <==> forall c :: c in columns ==> c in headers
    ensures r.Ok? ==> |r.value| == |columns|
    ensures r.Ok? ==> forall k :: 0 <= k < |columns| ==> FirstAt(headers, columns[k], r.value[k])
    ensures r.Err? ==> exists j: nat :: FirstMissingAt(headers, columns, j) && r.error.column == columns[j]
  {
    if columns == [] then Ok([])
    else
      var first :- IndexOf(headers, columns[0]);
      match IndexAll(headers, columns[1..])
      case Ok(rest) => Ok([first] + rest)
      case Err(e) =>
        assert exists j: nat :: FirstMissingAt(headers, columns, j) && e.column == columns[j] by {
          var j: nat :| FirstMissingAt(headers, columns[1..], j) && e.column == columns[1..][j];
          assert FirstMissingAt(headers, columns, j + 1) by {
            assert forall i :: 1 <= i <= j ==> columns[i] == columns[1..][i - 1];
          }
        }
        Err(e)
  }

  /**
   The `indexes` table at the top of the transformer: the lookups run in the
   dict literal's order, and the table holds every filled column's first
   position. A header row that lacks filled columns fails on the first of
   them in lookup order.
   */
  function ResolveLayout(headers: seq<string>): (r: Result<seq<nat>>)
    ensures r.Ok? <==> forall c :: c in Columns ==> c in headers
    ensures r.Ok? ==> Fits(headers, r.value) && Valid(r.value, |headers|)
    ensures r.Err? ==> exists j: nat :: FirstMissingAt(headers, LookupOrder(), j) && r.error.column == LookupOrder()[j]
    ensures r.Err? ==> r.error.column in Columns && r.error.column !in headers
  {
    LookupOrderColumns();
    var found :- IndexAll(headers, LookupOrder());
    FoundFits(headers, found);
    Ok(ByKey(found))
  }

  /** Rearranges a table in lookup order into key order. */
  function ByKey(found: seq<nat>): (indexes: seq<nat>)
    requires |found| == |Columns|
    ensures |indexes| == |Columns|
    ensures forall k :: 0 <= k < |Columns| ==> LookupPos[k] < |found| && indexes[k] == found[LookupPos[k]]
  {
    LookupPermutes();
    seq(|Columns|, k requires 0 <= k < |Columns| => found[LookupPos[k]])
  }

  /** First positions found in lookup order, rearranged by key, fit the header. */
  lemma FoundFits(headers: seq<string>, found: seq<nat>)
    requires |found| == |Columns|
    requires forall i :: 0 <= i < |found| ==> FirstAt(headers, LookupOrder()[i], found[i])
    ensures Fits(headers, ByKey(found)) && Valid(ByKey(found), |headers|)
  {
    var order, indexes := LookupOrder(), ByKey(found);
    forall k | 0 <= k < |Columns|
      ensures FirstAt(headers, Columns[k], indexes[k])
    {
      assert order[LookupPos[k]] == Columns[k];
    }
    FitsValid(headers, indexes);
  }

  /** Only one column can be the first missing one. */
  lemma FirstMissingUnique(headers: seq<string>, columns: seq<string>, i: nat, j: nat)
    requires FirstMissingAt(headers, columns, i) && FirstMissingAt(headers, columns, j)
    ensures i == j
  {
  }

  /** The first five lookups, in the order the dict literal performs them. */
  lemma FirstLookups()
    ensures |LookupOrder()| == |Columns|
    ensures LookupOrder()[0] == "externalID" && LookupOrder()[1] == "name"
    ensures LookupOrder()[2] == "status" && LookupOrder()[3] == "type"
    ensures LookupOrder()[4] == "priBreed"
  {
    var order := LookupOrder();
    assert LookupKeys[4] == BreedKey && Columns[BreedKey] == "priBreed";
  }

  /** A header whose first missing column in lookup order is `order[j]` is reported as missing that column. */
  lemma ReportsFirstMissing(headers: seq<string>, j: nat)
    requires FirstMissingAt(headers, LookupOrder(), j)
    ensures ResolveLayout(headers) == Err(ColumnNotFound(LookupOrder()[j]))
  {
    var order := LookupOrder();
    LookupOrderColumns();
    assert order[j] in Columns;
    var r := ResolveLayout(headers);
    var i: nat :| FirstMissingAt(headers, order, i) && r.error.column == order[i];
    FirstMissingUnique(headers, order, i, j);
  }

  /**
   A header with only the first four lookups' columns fails on "priBreed", the
   fifth lookup, and not on "sex", which comes earlier in the row.
   */
  lemma BreedReportedFirst(headers: seq<string>)
    requires headers == ["externalID", "name", "status", "type", "x"]
    ensures ResolveLayout(headers) == Err(ColumnNotFound("priBreed"))
  {
    var order := LookupOrder();
    FirstLookups();
    assert forall i :: 0 <= i < 4 ==> order[i] == headers[i];
    assert order[4] == "priBreed" && order[4] !in headers;
    ReportsFirstMissing(headers, 4);
  }

  lemma FirstAtUnique(headers: seq<string>, column: string, i: nat, j: nat)
    requires FirstAt(headers, column, i) && FirstAt(headers, column, j)
    ensures i == j
  {
  }

  /** A header row admits exactly one fitting table: the resolved one. */
  lemma FitsIsResolved(headers: seq<string>, indexes: seq<nat>)
    requires Fits(headers, indexes)
    ensures ResolveLayout(headers) == Ok(indexes)
  {
    assert forall c :: c in Columns ==> c in headers;
    var resolved := ResolveLayout(headers).value;
    forall k | 0 <= k < |Columns|
      ensures resolved[k] == indexes[k]
    {
      FirstAtUnique(headers, Columns[k], resolved[k], indexes[k]);
    }
    assert resolved == indexes;
  }

  /** The fitting table places the 26 filled columns at distinct positions. */
  lemma FitsValid(headers: seq<string>, indexes: seq<nat>)
    requires Fits(headers, indexes)
    ensures Valid(indexes, |headers|)
  {
    assert forall i, j :: 0 <= i < j < |Columns| ==> Columns[i] != Columns[j];
  }
}
