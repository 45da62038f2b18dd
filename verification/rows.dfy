/**
 Construction of one feed row from one source record: a row of empty cells
 as wide as the header, then positional assignments of field values, policy
 constants, the species-dependent breed and colour, the flattened
 description and up to four photo URLs, and finally the blanking of
 "Unknown" flags.
 */
module Rows {
  import opened Text
  import opened Schema
  import opened Pets

  const Unknown: string := "Unknown"

  /** A row of `n` empty cells (the handler's list of `None`s). */
  function BlankRow(n: nat): (row: seq<string>)
    ensures |row| == n && forall i :: 0 <= i < n ==> row[i] == ""
  {
    seq(n, _ => "")
  }

  /** All positions of `slots` are cells of `row`. */
  ghost predicate InRow(row: seq<string>, slots: seq<nat>)
  {
    forall k :: 0 <= k < |slots| ==> slots[k] < |row|
  }

  /** The positions of the field and policy columns, in assignment order. */
  function FieldSlots(indexes: seq<nat>): seq<nat>
    requires |indexes| == |Columns|
  {
    indexes[..FieldCount]
  }

  /** The four photo positions, in order. */
  function PhotoSlots(indexes: seq<nat>): seq<nat>
    requires |indexes| == |Columns|
  {
    [indexes[Photo1Key], indexes[Photo2Key], indexes[Photo3Key], indexes[Photo4Key]]
  }

  /** The seven yes/no flag positions `fix_unknowns` inspects, in its order. */
  function FlagSlots(indexes: seq<nat>): seq<nat>
    requires |indexes| == |Columns|
  {
    [indexes[UtdKey], indexes[FixedKey], indexes[HouseKey], indexes[DeclawedKey],
     indexes[OkDogKey], indexes[OkCatKey], indexes[OkKidKey]]
  }

  /**
   Fills photo slots from the URL list, front to back: each slot takes the
   next remaining URL while any remain. Slots without a URL keep their value;
   URLs beyond the last slot are dropped.
   */
  function AssignPhotos(row: seq<string>, slots: seq<nat>, urls: seq<string>): (r: seq<string>)
    requires InRow(row, slots) && Distinct(slots)
    ensures |r| == |row|
    ensures forall k {:trigger r[slots[k]]} :: 0 <= k < |slots| ==> r[slots[k]] == if k < |urls| then urls[k] else row[slots[k]]
    ensures forall i {:trigger r[i]} :: 0 <= i < |row| && i !in slots ==> r[i] == row[i]
    decreases |slots|
  {
    if slots == [] || urls == [] then row
    else
      var r := AssignPhotos(row[slots[0] := urls[0]], slots[1..], urls[1..]);
      assert forall k :: 1 <= k < |slots| ==> slots[k] in slots[1..] by {
        forall k | 1 <= k < |slots| ensures slots[k] in slots[1..] {
          assert slots[1..][k - 1] == slots[k];
        }
      }
      r
  }

  /** A flag value as the feed carries it: "Unknown" reads as no data. */
  function BlankIfUnknown(v: string): (w: string)
    ensures w != Unknown
    ensures v != Unknown ==> w == v
  {
    if v == Unknown then "" else v
  }

  /** Blanks every cell at one of `slots` that holds exactly "Unknown". */
  function BlankUnknowns(row: seq<string>, slots: seq<nat>): (r: seq<string>)
    requires InRow(row, slots)
    ensures |r| == |row|
    ensures forall i {:trigger r[i]} :: 0 <= i < |row| ==> r[i] == if i in slots then BlankIfUnknown(row[i]) else row[i]
    decreases |slots|
  {
    if slots == [] then row
    else
      var k := slots[0];
      var next := if row[k] == Unknown then row[k := ""] else row;
      var r := BlankUnknowns(next, slots[1..]);
      assert forall i :: i in slots <==> i == k || i in slots[1..];
      r
  }

  /** `fix_unknowns`: blanks "Unknown" in the seven flag columns only. */
  function FixUnknowns(row: seq<string>, indexes: seq<nat>): (r: seq<string>)
    requires |indexes| == |Columns| && InRow(row, FlagSlots(indexes))
    ensures |r| == |row|
    ensures forall i {:trigger r[i]} :: 0 <= i < |row| && i !in FlagSlots(indexes) ==> r[i] == row[i]
    ensures forall i {:trigger r[i]} :: 0 <= i < |row| && i in FlagSlots(indexes) ==> r[i] == BlankIfUnknown(row[i])
  {
    BlankUnknowns(row, FlagSlots(indexes))
  }

  /** Fixing unknowns a second time changes nothing. */
  lemma FixUnknownsIdempotent(row: seq<string>, indexes: seq<nat>)
    requires |indexes| == |Columns| && InRow(row, FlagSlots(indexes))
    ensures FixUnknowns(FixUnknowns(row, indexes), indexes) == FixUnknowns(row, indexes)
  {
    var once := FixUnknowns(row, indexes);
    var twice := FixUnknowns(once, indexes);
    assert forall i :: 0 <= i < |row| ==> twice[i] == once[i];
  }

  /** The photo URLs of a record, in list order. */
  function PictureUrls(p: Pet): (urls: seq<string>)
    ensures |urls| == |p.pictures|
    ensures forall k :: 0 <= k < |urls| ==> urls[k] == p.pictures[k].url
  {
    seq(|p.pictures|, k requires 0 <= k < |p.pictures| => p.pictures[k].url)
  }

  /** The `j`-th URL of a list, or nothing when the list is shorter. */
  function UrlOrBlank(urls: seq<string>, j: nat): string
  {
    if j < |urls| then urls[j] else ""
  }

  /** What the `j`-th photo column of a record's row shows. */
  function PhotoAt(p: Pet, j: nat): string
  {
    UrlOrBlank(PictureUrls(p), j)
  }

  /**
   Successive positional assignments `row[slots[k]] = values[k]`, in order.
   With distinct positions each one lands, and nothing else changes.
   */
  function Assign(row: seq<string>, slots: seq<nat>, values: seq<string>): (r: seq<string>)
    requires |slots| == |values| && InRow(row, slots)
    ensures |r| == |row|
    ensures Distinct(slots) ==> forall k {:trigger r[slots[k]]} :: 0 <= k < |slots| ==> r[slots[k]] == values[k]
    ensures forall i {:trigger r[i]} :: 0 <= i < |row| && i !in slots ==> r[i] == row[i]
    decreases |slots|
  {
    if slots == [] then row
    else
      var r := Assign(row[slots[0] := values[0]], slots[1..], values[1..]);
      assert forall k :: 1 <= k < |slots| ==> slots[k] == slots[1..][k - 1];
      assert forall i :: i in slots <==> i == slots[0] || i in slots[1..];
      r
  }

  /**
   The value the handler assigns to field or policy key `k` of a record. A
   species other than the two supported ones leaves breed and colour empty,
   as the handler never assigns them then.
   */
  function FieldValue(p: Pet, k: nat): string
    requires k < FieldCount
  {
    var species := Species(p);
    if k == IdKey then p.id
    else if k == NameKey then Field(p, NameField)
    else if k == StatusKey then "Available"
    else if k == SpeciesKey then species
    else if k == SexKey then Field(p, SexField)
    else if k == AgeKey then Field(p, AgeField)
    else if k == NeedsKey then Field(p, NeedsField)
    else if k == SizeKey then Field(p, SizeField)
    else if k == LengthKey then Field(p, CoatField)
    else if k == CourtesyKey then "Yes"
    else if k == FoundKey then "No"
    else if k == MixKey then (if Field(p, MixedBreedField) == "No" then "No" else "Yes")
    else if k == BreedKey then
      (if species == Dog then Field(p, DogBreedField) else if species == Cat then Field(p, CatBreedField) else "")
    else if k == ColorKey then
      (if species == Dog then Field(p, DogColorField) else if species == Cat then Field(p, CatColorField) else "")
    else if k == OkDogKey then Field(p, OkDogsField)
    else if k == OkCatKey then Field(p, OkCatsField)
    else if k == OkKidKey then Field(p, OkKidsField)
    else if k == DeclawedKey then Field(p, DeclawedField)
    else if k == HouseKey then Field(p, HousetrainedField)
    else if k == FixedKey then Field(p, AlteredField)
    else if k == UtdKey then Field(p, ShotsField)
    else FlattenLineBreaks(Field(p, DescriptionField))
  }

  /** The values of the field and policy columns, in the order of `FieldSlots`. */
  function FieldValues(p: Pet): (vs: seq<string>)
    ensures |vs| == FieldCount
    ensures forall k :: 0 <= k < FieldCount ==> vs[k] == FieldValue(p, k)
  {
    seq(FieldCount, k requires 0 <= k < FieldCount => FieldValue(p, k))
  }

  /**
   The cell a field or policy key ends up with: its value, with "Unknown"
   blanked for the seven flag keys.
   */
  function Cell(values: seq<string>, k: nat): string
    requires k < |values|
  {
    if OkDogKey <= k <= UtdKey then BlankIfUnknown(values[k]) else values[k]
  }

  /** Where the position of key `k` lies among the slot groups. */
  lemma KeySlot(indexes: seq<nat>, width: nat, k: nat)
    requires Valid(indexes, width) && k < |indexes|
    ensures indexes[k] in FieldSlots(indexes) <==> k < FieldCount
    ensures indexes[k] in PhotoSlots(indexes) <==> FieldCount <= k
    ensures indexes[k] in FlagSlots(indexes) <==> OkDogKey <= k <= UtdKey
  {
    var fields, photos := FieldSlots(indexes), PhotoSlots(indexes);
    assert forall j :: 0 <= j < |fields| ==> fields[j] == indexes[j];
    assert forall j :: 0 <= j < |photos| ==> photos[j] == indexes[FieldCount + j];
  }

  /** The slot groups are duplicate-free and the flag slots are cells of a full row. */
  lemma SlotsWellFormed(indexes: seq<nat>, width: nat)
    requires Valid(indexes, width)
    ensures Distinct(FieldSlots(indexes)) && Distinct(PhotoSlots(indexes))
    ensures forall row: seq<string> {:trigger InRow(row, FlagSlots(indexes))} ::
      |row| == width ==> InRow(row, FlagSlots(indexes))
  {
    var photos := PhotoSlots(indexes);
    assert forall j :: 0 <= j < |photos| ==> photos[j] == indexes[FieldCount + j];
  }

  /**
   The handler's three steps for a row of `width` cells: assign the field and
   policy values in order, fill the photo slots from the URL list, then blank
   "Unknown" flags.
   */
  function Steps(width: nat, indexes: seq<nat>, values: seq<string>, urls: seq<string>): (row: seq<string>)
    requires Valid(indexes, width) && |values| == FieldCount
    ensures |row| == width
  {
    SlotsWellFormed(indexes, width);
    var cells := Assign(BlankRow(width), FieldSlots(indexes), values);
    FixUnknowns(AssignPhotos(cells, PhotoSlots(indexes), urls), indexes)
  }

  lemma StepsFields(width: nat, indexes: seq<nat>, values: seq<string>, urls: seq<string>, k: nat)
    requires Valid(indexes, width) && |values| == FieldCount && k < FieldCount
    ensures Steps(width, indexes, values, urls)[indexes[k]]
      == Cell(values, k)
  {
    SlotsWellFormed(indexes, width);
    KeySlot(indexes, width, k);
    assert FieldSlots(indexes)[k] == indexes[k];
  }

  lemma StepsPhotos(width: nat, indexes: seq<nat>, values: seq<string>, urls: seq<string>, k: nat)
    requires Valid(indexes, width) && |values| == FieldCount && FieldCount <= k < |indexes|
    ensures Steps(width, indexes, values, urls)[indexes[k]] == UrlOrBlank(urls, k - FieldCount)
  {
    SlotsWellFormed(indexes, width);
    KeySlot(indexes, width, k);
    assert PhotoSlots(indexes)[k - FieldCount] == indexes[k];
  }

  lemma StepsOthers(width: nat, indexes: seq<nat>, values: seq<string>, urls: seq<string>, i: nat)
    requires Valid(indexes, width) && |values| == FieldCount && i < width && i !in indexes
    ensures Steps(width, indexes, values, urls)[i] == ""
  {
    SlotsWellFormed(indexes, width);
    assert indexes == FieldSlots(indexes) + PhotoSlots(indexes);
  }

  /** The row the three steps produce, described cell by cell. */
  function Fill(width: nat, indexes: seq<nat>, values: seq<string>, urls: seq<string>): (row: seq<string>)
    requires Valid(indexes, width) && |values| == FieldCount
    ensures |row| == width
    ensures forall k {:trigger row[indexes[k]]} :: 0 <= k < FieldCount ==>
      row[indexes[k]] == Cell(values, k)
    ensures forall k {:trigger row[indexes[k]]} :: FieldCount <= k < |indexes| ==> row[indexes[k]] == UrlOrBlank(urls, k - FieldCount)
    ensures forall i {:trigger row[i]} :: 0 <= i < width && i !in indexes ==> row[i] == ""
  {
    forall k | 0 <= k < FieldCount {
      StepsFields(width, indexes, values, urls, k);
    }
    forall k | FieldCount <= k < |indexes| {
      StepsPhotos(width, indexes, values, urls, k);
    }
    forall i | 0 <= i < width && i !in indexes {
      StepsOthers(width, indexes, values, urls, i);
    }
    Steps(width, indexes, values, urls)
  }

  /** A record's final cell for field or policy key `k`. */
  function FieldCell(p: Pet, k: nat): string
    requires k < FieldCount
  {
    Cell(FieldValues(p), k)
  }

  /**
   `create_csv_file`'s row for one record: every field and policy column
   holds its cell, the photo columns hold the first four URLs in order, and
   every other column is empty.
   */
  function BuildRow(width: nat, indexes: seq<nat>, p: Pet): (row: seq<string>)
    requires Valid(indexes, width)
    ensures |row| == width
    ensures forall k {:trigger row[indexes[k]]} :: 0 <= k < FieldCount ==> row[indexes[k]] == FieldCell(p, k)
    ensures forall k {:trigger row[indexes[k]]} :: FieldCount <= k < |indexes| ==> row[indexes[k]] == PhotoAt(p, k - FieldCount)
    ensures forall i {:trigger row[i]} :: 0 <= i < width && i !in indexes ==> row[i] == ""
  {
    Fill(width, indexes, FieldValues(p), PictureUrls(p))
  }

  /** The number of photo columns a feed row has. */
  const PhotoCount: nat := 4

  /**
   Reference definition of the photo columns: the first URLs of the list, at
   most four of them and in list order, then empty cells up to four.
   */
  function PhotoStrip(urls: seq<string>): (strip: seq<string>)
    ensures |strip| == PhotoCount
  {
    var n := if |urls| < PhotoCount then |urls| else PhotoCount;
    urls[..n] + BlankRow(PhotoCount - n)
  }

  /** The strip of a record's picture URLs, position by position. */
  lemma StripOfRecord(p: Pet)
    ensures PhotoStrip(PictureUrls(p)) == [PhotoAt(p, 0), PhotoAt(p, 1), PhotoAt(p, 2), PhotoAt(p, 3)]
  {
    var urls := PictureUrls(p);
    var strip := PhotoStrip(urls);
    assert forall j | 0 <= j < PhotoCount :: strip[j] == PhotoAt(p, j);
  }

  /** A record's four photo columns, read left to right, are the strip of its picture URLs. */
  lemma PhotoColumns(width: nat, indexes: seq<nat>, p: Pet)
    requires Valid(indexes, width)
    ensures var row := BuildRow(width, indexes, p);
      [row[indexes[Photo1Key]], row[indexes[Photo2Key]], row[indexes[Photo3Key]], row[indexes[Photo4Key]]]
        == PhotoStrip(PictureUrls(p))
  {
    StripOfRecord(p);
  }

  /**
   The cell-by-cell description of a record's row: field and policy cells,
   photo cells, and empty cells everywhere else.
   */
  ghost predicate DescribesRecord(width: nat, indexes: seq<nat>, p: Pet, row: seq<string>)
    requires Valid(indexes, width)
  {
    && |row| == width
    && (forall k {:trigger row[indexes[k]]} :: 0 <= k < FieldCount ==> row[indexes[k]] == FieldCell(p, k))
    && (forall k {:trigger row[indexes[k]]} :: FieldCount <= k < |indexes| ==> row[indexes[k]] == PhotoAt(p, k - FieldCount))
    && (forall i {:trigger row[i]} :: 0 <= i < width && i !in indexes ==> row[i] == "")
  }

  /** Two rows that agree on every slot of `indexes` and elsewhere are equal. */
  lemma SameOnSlots(width: nat, indexes: seq<nat>, a: seq<string>, b: seq<string>)
    requires Valid(indexes, width) && |a| == width && |b| == width
    requires forall k :: 0 <= k < |indexes| ==> a[indexes[k]] == b[indexes[k]]
    requires forall i :: 0 <= i < width && i !in indexes ==> a[i] == b[i]
    ensures a == b
  {
    forall i | 0 <= i < width
      ensures a[i] == b[i]
    {
      if i in indexes {
        var k :| 0 <= k < |indexes| && indexes[k] == i;
      }
    }
  }

  lemma DescribedIsBuilt(width: nat, indexes: seq<nat>, p: Pet, row: seq<string>)
    requires Valid(indexes, width) && DescribesRecord(width, indexes, p, row)
    ensures row == BuildRow(width, indexes, p)
  {
    var built := BuildRow(width, indexes, p);
    forall k | 0 <= k < |indexes|
      ensures row[indexes[k]] == built[indexes[k]]
    {
      if k < FieldCount {
        assert row[indexes[k]] == FieldCell(p, k);
      } else {
        assert row[indexes[k]] == PhotoAt(p, k - FieldCount);
      }
    }
    SameOnSlots(width, indexes, row, built);
  }

  /** The description pins the row down: the built row is the only one it admits. */
  lemma RowDetermined(width: nat, indexes: seq<nat>, p: Pet, row: seq<string>)
    requires Valid(indexes, width)
    ensures DescribesRecord(width, indexes, p, row) <==> row == BuildRow(width, indexes, p)
  {
    if DescribesRecord(width, indexes, p, row) {
      DescribedIsBuilt(width, indexes, p, row);
    }
  }

  /** The identity and policy cells: id verbatim, "Available", the species, "Yes", "No". */
  lemma IdentityCells(p: Pet)
    ensures && FieldCell(p, IdKey) == p.id
            && FieldCell(p, StatusKey) == "Available"
            && FieldCell(p, SpeciesKey) == Species(p)
            && FieldCell(p, CourtesyKey) == "Yes"
            && FieldCell(p, FoundKey) == "No"
  {
  }

  lemma RowIdentity(width: nat, indexes: seq<nat>, p: Pet)
    requires Valid(indexes, width)
    ensures var row := BuildRow(width, indexes, p);
      && row[indexes[IdKey]] == p.id
      && row[indexes[StatusKey]] == "Available"
      && row[indexes[SpeciesKey]] == Species(p)
      && row[indexes[CourtesyKey]] == "Yes"
      && row[indexes[FoundKey]] == "No"
  {
    IdentityCells(p);
  }

  /** The cells copied from a field, an absent field giving an empty cell. */
  lemma CopiedCells(p: Pet)
    ensures && FieldCell(p, NameKey) == Field(p, NameField)
            && FieldCell(p, SexKey) == Field(p, SexField)
            && FieldCell(p, AgeKey) == Field(p, AgeField)
            && FieldCell(p, NeedsKey) == Field(p, NeedsField)
            && FieldCell(p, SizeKey) == Field(p, SizeField)
            && FieldCell(p, LengthKey) == Field(p, CoatField)
  {
  }

  lemma RowCopiedFields(width: nat, indexes: seq<nat>, p: Pet)
    requires Valid(indexes, width)
    ensures var row := BuildRow(width, indexes, p);
      && row[indexes[NameKey]] == Field(p, NameField)
      && row[indexes[SexKey]] == Field(p, SexField)
      && row[indexes[AgeKey]] == Field(p, AgeField)
      && row[indexes[NeedsKey]] == Field(p, NeedsField)
      && row[indexes[SizeKey]] == Field(p, SizeField)
      && row[indexes[LengthKey]] == Field(p, CoatField)
  {
    CopiedCells(p);
  }

  /** The `mix` cell is "No" exactly when `Mixed Breed` is "No", and "Yes" otherwise. */
  lemma MixCell(p: Pet)
    ensures FieldCell(p, MixKey) == "No" <==> Field(p, MixedBreedField) == "No"
    ensures FieldCell(p, MixKey) == "Yes" <==> Field(p, MixedBreedField) != "No"
  {
  }

  lemma MixColumn(width: nat, indexes: seq<nat>, p: Pet)
    requires Valid(indexes, width)
    ensures var row := BuildRow(width, indexes, p);
      && (row[indexes[MixKey]] == "No" <==> Field(p, MixedBreedField) == "No")
      && (row[indexes[MixKey]] == "Yes" <==> Field(p, MixedBreedField) != "No")
  {
    MixCell(p);
  }

  /** Breed and colour come from the dog fields for a dog and from the cat fields for a cat. */
  lemma BreedAndColorCells(p: Pet)
    ensures Species(p) == Dog ==>
      FieldCell(p, BreedKey) == Field(p, DogBreedField) && FieldCell(p, ColorKey) == Field(p, DogColorField)
    ensures Species(p) == Cat ==>
      FieldCell(p, BreedKey) == Field(p, CatBreedField) && FieldCell(p, ColorKey) == Field(p, CatColorField)
  {
  }

  lemma BreedAndColor(width: nat, indexes: seq<nat>, p: Pet)
    requires Valid(indexes, width)
    ensures var row := BuildRow(width, indexes, p);
      && (Species(p) == Dog ==>
            row[indexes[BreedKey]] == Field(p, DogBreedField) && row[indexes[ColorKey]] == Field(p, DogColorField))
      && (Species(p) == Cat ==>
            row[indexes[BreedKey]] == Field(p, CatBreedField) && row[indexes[ColorKey]] == Field(p, CatColorField))
  {
    BreedAndColorCells(p);
  }

  /** The seven yes/no flags are copied, except that "Unknown" becomes empty. */
  lemma FlagCells(p: Pet)
    ensures && FieldCell(p, OkDogKey) == BlankIfUnknown(Field(p, OkDogsField))
            && FieldCell(p, OkCatKey) == BlankIfUnknown(Field(p, OkCatsField))
            && FieldCell(p, OkKidKey) == BlankIfUnknown(Field(p, OkKidsField))
            && FieldCell(p, DeclawedKey) == BlankIfUnknown(Field(p, DeclawedField))
            && FieldCell(p, HouseKey) == BlankIfUnknown(Field(p, HousetrainedField))
            && FieldCell(p, FixedKey) == BlankIfUnknown(Field(p, AlteredField))
            && FieldCell(p, UtdKey) == BlankIfUnknown(Field(p, ShotsField))
    ensures forall k :: OkDogKey <= k <= UtdKey ==> FieldCell(p, k) != Unknown
  {
  }

  lemma FlagColumns(width: nat, indexes: seq<nat>, p: Pet)
    requires Valid(indexes, width)
    ensures var row := BuildRow(width, indexes, p);
      && row[indexes[OkDogKey]] == BlankIfUnknown(Field(p, OkDogsField))
      && row[indexes[OkCatKey]] == BlankIfUnknown(Field(p, OkCatsField))
      && row[indexes[OkKidKey]] == BlankIfUnknown(Field(p, OkKidsField))
      && row[indexes[DeclawedKey]] == BlankIfUnknown(Field(p, DeclawedField))
      && row[indexes[HouseKey]] == BlankIfUnknown(Field(p, HousetrainedField))
      && row[indexes[FixedKey]] == BlankIfUnknown(Field(p, AlteredField))
      && row[indexes[UtdKey]] == BlankIfUnknown(Field(p, ShotsField))
      && forall k :: OkDogKey <= k <= UtdKey ==> row[indexes[k]] != Unknown
  {
    FlagCells(p);
  }

  /** Any record's description cell is its flattened description. */
  lemma DescriptionFlattened(p: Pet)
    ensures FieldCell(p, DscKey) == FlattenLineBreaks(Field(p, DescriptionField))
  {
  }

  /**
   The description cell is the record's description with every carriage
   return and line feed turned into `<br />`; it holds no line break, and an
   absent description gives an empty cell.
   */
  lemma DescriptionCell(p: Pet)
    ensures FieldCell(p, DscKey) == BreakLines(Field(p, DescriptionField))
    ensures CarriageReturn !in FieldCell(p, DscKey) && LineFeed !in FieldCell(p, DscKey)
    ensures DescriptionField !in p.fields ==> FieldCell(p, DscKey) == ""
  {
    FlattenIsBreakLines(Field(p, DescriptionField));
  }

  lemma DescriptionColumn(width: nat, indexes: seq<nat>, p: Pet)
    requires Valid(indexes, width)
    ensures var row := BuildRow(width, indexes, p);
      && row[indexes[DscKey]] == BreakLines(Field(p, DescriptionField))
      && CarriageReturn !in row[indexes[DscKey]] && LineFeed !in row[indexes[DscKey]]
      && (DescriptionField !in p.fields ==> row[indexes[DscKey]] == "")
  {
    DescriptionCell(p);
  }

  /** The seven positions the placeholder row assigns, in the handler's order. */
  function PlaceholderSlots(indexes: seq<nat>): seq<nat>
    requires |indexes| == |Columns|
  {
    [indexes[IdKey], indexes[NameKey], indexes[StatusKey], indexes[SpeciesKey],
     indexes[BreedKey], indexes[ColorKey], indexes[DscKey]]
  }

  /** The placeholder's values, matching `PlaceholderSlots`. */
  const PlaceholderValues: seq<string> :=
    ["1", "Temporary Deleted Dog", "Deleted", "Dog", "Beagle", "Tan", ""]

  /** What the placeholder row holds in the column of key `k`. */
  function PlaceholderCell(k: nat): string
  {
    if k == IdKey then "1"
    else if k == NameKey then "Temporary Deleted Dog"
    else if k == StatusKey then "Deleted"
    else if k == SpeciesKey then "Dog"
    else if k == BreedKey then "Beagle"
    else if k == ColorKey then "Tan"
    else ""
  }

  lemma PlaceholderSlotsWellFormed(indexes: seq<nat>, width: nat)
    requires Valid(indexes, width)
    ensures Distinct(PlaceholderSlots(indexes))
    ensures forall row: seq<string> {:trigger InRow(row, PlaceholderSlots(indexes))} ::
      |row| == width ==> InRow(row, PlaceholderSlots(indexes))
  {
  }

  /** The assignments the handler makes for an empty record list. */
  function PlaceholderSteps(width: nat, indexes: seq<nat>): (row: seq<string>)
    requires Valid(indexes, width)
    ensures |row| == width
  {
    PlaceholderSlotsWellFormed(indexes, width);
    Assign(BlankRow(width), PlaceholderSlots(indexes), PlaceholderValues)
  }

  lemma PlaceholderStepsCell(width: nat, indexes: seq<nat>, k: nat)
    requires Valid(indexes, width) && k < |indexes|
    ensures PlaceholderSteps(width, indexes)[indexes[k]] == PlaceholderCell(k)
  {
    PlaceholderSlotsWellFormed(indexes, width);
    var slots := PlaceholderSlots(indexes);
    if k !in {IdKey, NameKey, StatusKey, SpeciesKey, BreedKey, ColorKey, DscKey} {
      assert indexes[k] !in slots;
    }
  }

  lemma PlaceholderStepsOther(width: nat, indexes: seq<nat>, i: nat)
    requires Valid(indexes, width) && i < width && i !in indexes
    ensures PlaceholderSteps(width, indexes)[i] == ""
  {
    PlaceholderSlotsWellFormed(indexes, width);
    assert i !in PlaceholderSlots(indexes);
  }

  /**
   The single row written for an empty record list: a deleted placeholder dog
   with id "1", name, status, type, breed, colour and an empty description,
   and every other cell empty.
   */
  function PlaceholderRow(width: nat, indexes: seq<nat>): (row: seq<string>)
    requires Valid(indexes, width)
    ensures |row| == width
    ensures forall k {:trigger row[indexes[k]]} :: 0 <= k < |indexes| ==> row[indexes[k]] == PlaceholderCell(k)
    ensures forall i {:trigger row[i]} :: 0 <= i < width && i !in indexes ==> row[i] == ""
  {
    forall k | 0 <= k < |indexes| {
      PlaceholderStepsCell(width, indexes, k);
    }
    forall i | 0 <= i < width && i !in indexes {
      PlaceholderStepsOther(width, indexes, i);
    }
    PlaceholderSteps(width, indexes)
  }

  lemma PlaceholderCells()
    ensures && PlaceholderCell(IdKey) == "1"
            && PlaceholderCell(NameKey) == "Temporary Deleted Dog"
            && PlaceholderCell(StatusKey) == "Deleted"
            && PlaceholderCell(SpeciesKey) == Dog
            && PlaceholderCell(BreedKey) == "Beagle"
            && PlaceholderCell(ColorKey) == "Tan"
            && PlaceholderCell(DscKey) == ""
    ensures forall k :: OkDogKey <= k <= UtdKey || Photo1Key <= k <= Photo4Key ==> PlaceholderCell(k) == ""
  {
  }

  /** The named cells of the placeholder row; the flags and photos stay empty. */
  lemma PlaceholderColumns(width: nat, indexes: seq<nat>)
    requires Valid(indexes, width)
    ensures var row := PlaceholderRow(width, indexes);
      && row[indexes[IdKey]] == "1"
      && row[indexes[NameKey]] == "Temporary Deleted Dog"
      && row[indexes[StatusKey]] == "Deleted"
      && row[indexes[SpeciesKey]] == Dog
      && row[indexes[BreedKey]] == "Beagle"
      && row[indexes[ColorKey]] == "Tan"
      && row[indexes[DscKey]] == ""
      && (forall k :: OkDogKey <= k <= UtdKey ==> row[indexes[k]] == "")
      && (forall k :: Photo1Key <= k <= Photo4Key ==> row[indexes[k]] == "")
  {
    PlaceholderCells();
  }
}
