/**
 The whole feed: the header row, then one row per listed record in input
 order, or a single placeholder row when the record list is empty.

 The sequence-level part is stated for any function from a record to its row;
 `RecordRows` is the row builder of one header layout.
 */
module Feed {
  import opened Schema
  import opened Pets
  import opened Rows

  /** The records the feed lists, in input order, without reordering or deduplication. */
  function Qualifying(pets: seq<Pet>): (q: seq<Pet>)
    ensures |q| <= |pets|
  {
    if pets == [] then []
    else (if Qualifies(pets[0]) then [pets[0]] else []) + Qualifying(pets[1..])
  }

  /** The listed records are exactly the qualifying records of the list. */
  lemma {:induction false} QualifyingMembers(pets: seq<Pet>, p: Pet)
    ensures p in Qualifying(pets) <==> p in pets && Qualifies(p)
  {
    if pets != [] {
      QualifyingMembers(pets[1..], p);
      assert pets == [pets[0]] + pets[1..];
    }
  }

  /** Filtering distributes over concatenation, so the input order is kept. */
  lemma {:induction false} QualifyingAppend(a: seq<Pet>, b: seq<Pet>)
    ensures Qualifying(a + b) == Qualifying(a) + Qualifying(b)
  {
    if a == [] {
      assert a + b == b;
    } else {
      assert (a + b)[0] == a[0];
      assert (a + b)[1..] == a[1..] + b;
      QualifyingAppend(a[1..], b);
    }
  }

  /** One row per record, in order: the reference the handler's loop is compared with. */
  function RowsOf(rowOf: Pet -> seq<string>, pets: seq<Pet>): (rows: seq<seq<string>>)
    ensures |rows| == |pets|
    ensures forall i :: 0 <= i < |pets| ==> rows[i] == rowOf(pets[i])
  {
    if pets == [] then [] else [rowOf(pets[0])] + RowsOf(rowOf, pets[1..])
  }

  lemma {:induction false} RowsOfAppend(rowOf: Pet -> seq<string>, a: seq<Pet>, b: seq<Pet>)
    ensures RowsOf(rowOf, a + b) == RowsOf(rowOf, a) + RowsOf(rowOf, b)
  {
    if a == [] {
      assert a + b == b;
    } else {
      assert (a + b)[0] == a[0];
      assert (a + b)[1..] == a[1..] + b;
      RowsOfAppend(rowOf, a[1..], b);
    }
  }

  /**
   The handler's loop over a non-empty record list: a record that does not
   qualify is skipped, every other record gets its row, in list order.
   */
  function FeedRows(rowOf: Pet -> seq<string>, pets: seq<Pet>): (rows: seq<seq<string>>)
    ensures rows == RowsOf(rowOf, Qualifying(pets))
  {
    if pets == [] then []
    else
      var rest := FeedRows(rowOf, pets[1..]);
      if Qualifies(pets[0]) then
        var q := Qualifying(pets);
        assert q[0] == pets[0] && q[1..] == Qualifying(pets[1..]);
        [rowOf(pets[0])] + rest
      else rest
  }

  /** Rows for a concatenation are the rows of each part, in order. */
  lemma FeedRowsAppend(rowOf: Pet -> seq<string>, a: seq<Pet>, b: seq<Pet>)
    ensures FeedRows(rowOf, a + b) == FeedRows(rowOf, a) + FeedRows(rowOf, b)
  {
    QualifyingAppend(a, b);
    RowsOfAppend(rowOf, Qualifying(a), Qualifying(b));
  }

  /** Every qualifying record of the list has its row among the list's rows. */
  lemma {:induction false} QualifyingHasRow(rowOf: Pet -> seq<string>, pets: seq<Pet>, p: Pet)
    requires p in pets && Qualifies(p)
    ensures rowOf(p) in FeedRows(rowOf, pets)
  {
    var rows := FeedRows(rowOf, pets);
    if pets[0] == p {
      assert rows[0] == rowOf(p);
    } else {
      assert p in pets[1..];
      QualifyingHasRow(rowOf, pets[1..], p);
      var rest := FeedRows(rowOf, pets[1..]);
      assert rows == rest || rows == [rowOf(pets[0])] + rest;
    }
  }

  /** A list of which exactly two records qualify gives their two rows, in order. */
  lemma TwoRows(rowOf: Pet -> seq<string>, pets: seq<Pet>, a: Pet, b: Pet)
    requires Qualifying(pets) == [a, b]
    ensures FeedRows(rowOf, pets) == [rowOf(a), rowOf(b)]
  {
    assert RowsOf(rowOf, [a, b])[1..] == RowsOf(rowOf, [b]);
  }

  /** The row builder of one header layout, as a function of the record. */
  function RecordRows(width: nat, indexes: seq<nat>): (rowOf: Pet -> seq<string>)
    requires Valid(indexes, width)
    ensures forall p :: rowOf(p) == BuildRow(width, indexes, p)
  {
    p => BuildRow(width, indexes, p)
  }

  /** Two qualifying records give the built rows of the two, in order. */
  lemma TwoRecordRows(width: nat, indexes: seq<nat>, pets: seq<Pet>, a: Pet, b: Pet)
    requires Valid(indexes, width)
    requires Qualifying(pets) == [a, b]
    ensures FeedRows(RecordRows(width, indexes), pets) == [BuildRow(width, indexes, a), BuildRow(width, indexes, b)]
  {
    TwoRows(RecordRows(width, indexes), pets, a, b);
  }

  /** The rows of the records for one header layout all have the header's width. */
  lemma RecordRowsWidth(width: nat, indexes: seq<nat>, pets: seq<Pet>)
    requires Valid(indexes, width)
    ensures forall row :: row in RowsOf(RecordRows(width, indexes), pets) ==> |row| == width
  {
    var rowOf := RecordRows(width, indexes);
    var rows := RowsOf(rowOf, pets);
    forall row | row in rows
      ensures |row| == width
    {
      var i :| 0 <= i < |rows| && rows[i] == row;
      assert row == BuildRow(width, indexes, pets[i]);
    }
  }

  /**
   `create_csv_file` without the file: the header row, then the rows of the
   qualifying records in input order, or the placeholder row for an empty
   list. A header row lacking one of the filled columns is the layout's error.
   */
  function CreateCsv(headers: seq<string>, pets: seq<Pet>): (r: Result<seq<seq<string>>>)
    ensures r.Ok? <==> ResolveLayout(headers).Ok?
    ensures r.Err? ==> r.error == ResolveLayout(headers).error
    ensures r.Ok? ==>
      var indexes := ResolveLayout(headers).value;
      r.value == [headers] + (if pets == [] then [PlaceholderRow(|headers|, indexes)]
                              else RowsOf(RecordRows(|headers|, indexes), Qualifying(pets)))
  {
    var indexes :- ResolveLayout(headers);
    var body := if |pets| > 0 then FeedRows(RecordRows(|headers|, indexes), pets)
                else [PlaceholderRow(|headers|, indexes)];
    Ok([headers] + body)
  }

  /** A non-empty record list gives the header row, then the list's rows. */
  lemma ListedFeed(headers: seq<string>, pets: seq<Pet>)
    requires forall c :: c in Columns ==> c in headers
    requires pets != []
    ensures CreateCsv(headers, pets).value == [headers] + FeedRows(RecordRows(|headers|, ResolveLayout(headers).value), pets)
  {
  }

  /** The output starts with the header row and every later row is as wide as it. */
  lemma RowsAsWideAsHeader(headers: seq<string>, pets: seq<Pet>)
    requires CreateCsv(headers, pets).Ok?
    ensures var out := CreateCsv(headers, pets).value;
      && |out| >= 1 && out[0] == headers
      && forall i :: 1 <= i < |out| ==> |out[i]| == |headers|
  {
    var out := CreateCsv(headers, pets).value;
    var indexes := ResolveLayout(headers).value;
    var rows := if pets == [] then [PlaceholderRow(|headers|, indexes)]
                else RowsOf(RecordRows(|headers|, indexes), Qualifying(pets));
    if pets != [] {
      RecordRowsWidth(|headers|, indexes, Qualifying(pets));
    }
    assert out[1..] == rows;
    forall i | 1 <= i < |out|
      ensures |out[i]| == |headers|
    {
      assert out[1..][i - 1] == out[i];
      assert out[i] in rows;
    }
  }

  /** An empty record list gives the header row and the placeholder row. */
  lemma EmptyListPlaceholder(headers: seq<string>)
    requires forall c :: c in Columns ==> c in headers
    ensures CreateCsv(headers, []) == Ok([headers, PlaceholderRow(|headers|, ResolveLayout(headers).value)])
  {
    var placeholder := PlaceholderRow(|headers|, ResolveLayout(headers).value);
    assert [headers] + [placeholder] == [headers, placeholder];
  }

  /** A non-empty list in which no record qualifies gives the header row alone. */
  lemma NothingListedHeaderOnly(headers: seq<string>, pets: seq<Pet>)
    requires forall c :: c in Columns ==> c in headers
    requires pets != [] && forall p :: p in pets ==> !Qualifies(p)
    ensures CreateCsv(headers, pets) == Ok([headers])
  {
    var q := Qualifying(pets);
    if q != [] {
      QualifyingMembers(pets, q[0]);
    }
    assert [headers] + RowsOf(RecordRows(|headers|, ResolveLayout(headers).value), q) == [headers];
  }

  /** Every qualifying record of the list has its row in the feed. */
  lemma QualifyingListed(headers: seq<string>, pets: seq<Pet>, p: Pet)
    requires forall c :: c in Columns ==> c in headers
    requires p in pets && Qualifies(p)
    ensures var indexes := ResolveLayout(headers).value;
      Valid(indexes, |headers|) && BuildRow(|headers|, indexes, p) in CreateCsv(headers, pets).value[1..]
  {
    var indexes := ResolveLayout(headers).value;
    var rowOf := RecordRows(|headers|, indexes);
    QualifyingHasRow(rowOf, pets, p);
    assert CreateCsv(headers, pets).value[1..] == FeedRows(rowOf, pets);
  }
}
