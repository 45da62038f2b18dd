/**
 The records of the handler's own CSV test, run through the model. The test
 gives its two listable records the statuses "Published" and "x Published",
 which do not contain the marker the filter looks for, so the feed built
 from them holds the header row only and the test's per-row expectations
 are never reached. With the marker in both statuses the two rows are the
 ones the test expects.
 */
module Scenario {
  import opened Text
  import opened Schema
  import opened Pets
  import opened Rows
  import opened Feed

  /** An adopted record without a species. */
  const Adopted: Pet := Pet("1", map["Status" := "Adopted"], [])

  /** A record of an unsupported species, with a given status. */
  function Alien(status: string): Pet
  {
    Pet("2", map["Status" := status, "Pet Species" := "Alien"], [])
  }

  /** The dog record's fields with a given status. */
  function DogFields(status: string): map<string, string>
  {
    map[
      "Status" := status, "Pet Species" := "Dog", "Pet Name" := "Fido", "Sex" := "Male",
      "Pet Age" := "Young", "Pet Size" := "Large", "Coat Length" := "Short",
      "Mixed Breed" := "Unknown", "Breed - Dog" := "Beagle", "Color - Dog" := "Tan",
      "Okay with Dogs" := "Yes", "Okay with Cats" := "No", "Okay with Kids" := "Unknown",
      "Housetrained" := "Yes", "Altered" := "Unknown", "Up-to-date on Shots etc" := "No",
      "Public Description" := "test dog notes\n\r"]
  }

  /** The cat record's fields with a given status. */
  function CatFields(status: string): map<string, string>
  {
    map[
      "Status" := status, "Pet Species" := "Cat", "Pet Name" := "Freya", "Sex" := "Female",
      "Pet Age" := "Adult", "Special Needs" := "Yes", "Pet Size" := "Small",
      "Coat Length" := "Long", "Mixed Breed" := "No", "Breed - Cat" := "Calico",
      "Color - Cat" := "White", "Okay with Dogs" := "Unknown", "Okay with Cats" := "Yes",
      "Okay with Kids" := "No", "Declawed" := "Yes", "Housetrained" := "No", "Altered" := "No",
      "Up-to-date on Shots etc" := "Unknown"]
  }

  function Fido(status: string): Pet
  {
    Pet("3", DogFields(status), [Picture("https://dog.jpg")])
  }

  function Freya(status: string): Pet
  {
    Pet("4", CatFields(status),
        [Picture("https://cat1.jpg"), Picture("https://cat2.jpg"),
         Picture("https://cat3.jpg"), Picture("https://cat4.jpg")])
  }

  /** The test's record list, with the statuses of the alien, the dog and the cat as parameters. */
  function Animals(alienStatus: string, dogStatus: string, catStatus: string): (pets: seq<Pet>)
    ensures |pets| == 4
  {
    [Adopted, Alien(alienStatus), Fido(dogStatus), Freya(catStatus)]
  }

  /** The statuses the test gives its alien, dog and cat. */
  const TestAlienStatus: string := "Published - "
  const TestDogStatus: string := "Published"
  const TestCatStatus: string := "x Published"

  /** The dog's cells, in the order of `Columns`, as the test expects them. */
  const FidoCells: seq<string> := [
    "3", "Fido", "Available", "Dog", "Male", "Young", "", "Large", "Short", "Yes", "No",
    "Yes", "Beagle", "Tan", "Yes", "No", "", "", "Yes", "", "No",
    "test dog notes<br /><br />", "https://dog.jpg", "", "", ""]

  /** The cat's cells, in the order of `Columns`, as the test expects them. */
  const FreyaCells: seq<string> := [
    "4", "Freya", "Available", "Cat", "Female", "Adult", "Yes", "Small", "Long", "Yes", "No",
    "No", "Calico", "White", "", "Yes", "No", "Yes", "No", "No", "",
    "", "https://cat1.jpg", "https://cat2.jpg", "https://cat3.jpg", "https://cat4.jpg"]

  lemma NotMarked(status: string)
    requires status == TestDogStatus || status == TestCatStatus || status == "Adopted"
    ensures !Contains(status, AvailableMarker)
  {
  }

  lemma DogSkipped()
    ensures !Qualifies(Fido(TestDogStatus))
  {
    NotMarked(TestDogStatus);
    assert Field(Fido(TestDogStatus), StatusField) == TestDogStatus;
  }

  lemma CatSkipped()
    ensures !Qualifies(Freya(TestCatStatus))
  {
    NotMarked(TestCatStatus);
    assert Field(Freya(TestCatStatus), StatusField) == TestCatStatus;
  }

  /** None of the test's records qualifies with the statuses the test gives them. */
  lemma TestRecordsSkipped()
    ensures forall p :: p in Animals(TestAlienStatus, TestDogStatus, TestCatStatus) ==> !Qualifies(p)
  {
    AdoptedSkipped();
    AlienSkipped(TestAlienStatus);
    DogSkipped();
    CatSkipped();
  }

  /** As written, the test's feed is the header row alone. */
  lemma TestFeedHeaderOnly(headers: seq<string>)
    requires forall c :: c in Columns ==> c in headers
    ensures CreateCsv(headers, Animals(TestAlienStatus, TestDogStatus, TestCatStatus)) == Ok([headers])
  {
    TestRecordsSkipped();
    NothingListedHeaderOnly(headers, Animals(TestAlienStatus, TestDogStatus, TestCatStatus));
  }

  /** The status the filter looks for, as the test evidently meant to give both records. */
  const IntendedStatus: string := AvailableMarker

  lemma MarkerContained()
    ensures Contains(IntendedStatus, AvailableMarker)
  {
    assert OccursAt(IntendedStatus, AvailableMarker, 0);
  }

  lemma AdoptedSkipped()
    ensures !Qualifies(Adopted)
  {
    NotMarked("Adopted");
    assert Field(Adopted, StatusField) == "Adopted";
  }

  /** The alien is rejected by its species, whatever its status. */
  lemma AlienSkipped(status: string)
    ensures !Qualifies(Alien(status))
  {
    assert Species(Alien(status)) == "Alien";
  }

  lemma FidoListed()
    ensures Qualifies(Fido(IntendedStatus))
  {
    MarkerContained();
    var p := Fido(IntendedStatus);
    assert Field(p, StatusField) == IntendedStatus && Species(p) == Dog;
  }

  lemma FreyaListed()
    ensures Qualifies(Freya(IntendedStatus))
  {
    MarkerContained();
    var p := Freya(IntendedStatus);
    assert Field(p, StatusField) == IntendedStatus && Species(p) == Cat;
  }

  /**
   With the marker in the statuses of the alien, the dog and the cat, exactly
   the dog and the cat qualify: the alien is left out by its species alone.
   */
  lemma IntendedRecordsListed()
    ensures Qualifying(Animals(IntendedStatus, IntendedStatus, IntendedStatus))
      == [Fido(IntendedStatus), Freya(IntendedStatus)]
  {
    var dog, cat := Fido(IntendedStatus), Freya(IntendedStatus);
    AdoptedSkipped();
    AlienSkipped(IntendedStatus);
    FidoListed();
    FreyaListed();
    var pets := Animals(IntendedStatus, IntendedStatus, IntendedStatus);
    assert pets[1..] == [Alien(IntendedStatus), dog, cat];
    assert pets[1..][1..] == [dog, cat];
    assert pets[1..][1..][1..] == [cat];
    assert Qualifying([cat]) == [cat];
    assert Qualifying([dog, cat]) == [dog, cat];
  }

  /** The dog record's field values. */
  lemma FidoNamed(status: string)
    ensures var p := Fido(status);
      && Species(p) == Dog && Field(p, NameField) == "Fido" && Field(p, SexField) == "Male"
      && Field(p, AgeField) == "Young" && Field(p, NeedsField) == "" && Field(p, SizeField) == "Large"
  {
  }

  lemma FidoDescribed(status: string)
    ensures var p := Fido(status);
      && Field(p, CoatField) == "Short" && Field(p, MixedBreedField) == "Unknown"
      && Field(p, DogBreedField) == "Beagle" && Field(p, DogColorField) == "Tan"
      && Field(p, DescriptionField) == "test dog notes\n\r"
  {
  }

  lemma FidoFlags(status: string)
    ensures var p := Fido(status);
      && Field(p, OkDogsField) == "Yes" && Field(p, OkCatsField) == "No" && Field(p, OkKidsField) == "Unknown"
      && Field(p, DeclawedField) == "" && Field(p, HousetrainedField) == "Yes"
      && Field(p, AlteredField) == "Unknown" && Field(p, ShotsField) == "No"
  {
  }

  /** The cat record's field values. */
  lemma FreyaNamed(status: string)
    ensures var p := Freya(status);
      && Species(p) == Cat && Field(p, NameField) == "Freya" && Field(p, SexField) == "Female"
      && Field(p, AgeField) == "Adult" && Field(p, NeedsField) == "Yes" && Field(p, SizeField) == "Small"
  {
  }

  lemma FreyaDescribed(status: string)
    ensures var p := Freya(status);
      && Field(p, CoatField) == "Long" && Field(p, MixedBreedField) == "No"
      && Field(p, CatBreedField) == "Calico" && Field(p, CatColorField) == "White"
      && Field(p, DescriptionField) == ""
  {
  }

  lemma FreyaFlags(status: string)
    ensures var p := Freya(status);
      && Field(p, OkDogsField) == "Unknown" && Field(p, OkCatsField) == "Yes" && Field(p, OkKidsField) == "No"
      && Field(p, DeclawedField) == "Yes" && Field(p, HousetrainedField) == "No"
      && Field(p, AlteredField) == "No" && Field(p, ShotsField) == "Unknown"
  {
  }

  lemma FidoLeadingCells()
    ensures forall k :: 0 <= k < MixKey ==> FieldCell(Fido(IntendedStatus), k) == FidoCells[k]
  {
    FidoNamed(IntendedStatus);
    FidoDescribed(IntendedStatus);
  }

  lemma FidoTrailingCells()
    ensures forall k :: MixKey <= k < DscKey ==> FieldCell(Fido(IntendedStatus), k) == FidoCells[k]
  {
    FidoNamed(IntendedStatus);
    FidoDescribed(IntendedStatus);
    FidoFlags(IntendedStatus);
  }

  /** A description of a LF followed by a CR ends in two markups. */
  lemma NotesCell(p: Pet)
    requires Field(p, DescriptionField) == "test dog notes\n\r"
    ensures FieldCell(p, DscKey) == FidoCells[DscKey]
  {
    DescriptionFlattened(p);
    FlattenExample(Field(p, DescriptionField));
  }

  /** The dog's field and policy cells are those the test expects. */
  lemma FidoCellsExpected()
    ensures forall k :: 0 <= k < FieldCount ==> FieldCell(Fido(IntendedStatus), k) == FidoCells[k]
  {
    FidoLeadingCells();
    FidoTrailingCells();
    FidoDescribed(IntendedStatus);
    NotesCell(Fido(IntendedStatus));
  }

  /** The dog's single picture fills the first photo column only. */
  lemma FidoPhotosExpected()
    ensures forall j :: 0 <= j < 4 ==> PhotoAt(Fido(IntendedStatus), j) == FidoCells[FieldCount + j]
  {
  }

  /** The cat's field and policy cells are those the test expects. */
  lemma FreyaCellsExpected()
    ensures forall k :: 0 <= k < FieldCount ==> FieldCell(Freya(IntendedStatus), k) == FreyaCells[k]
  {
    FreyaNamed(IntendedStatus);
    FreyaDescribed(IntendedStatus);
    FreyaFlags(IntendedStatus);
  }

  /** The cat's four pictures fill the four photo columns in order. */
  lemma FreyaPhotosExpected()
    ensures forall j :: 0 <= j < 4 ==> PhotoAt(Freya(IntendedStatus), j) == FreyaCells[FieldCount + j]
  {
  }

  /** The dog's row holds the test's expected cells at the positions of the filled columns. */
  lemma FidoRow(width: nat, indexes: seq<nat>)
    requires Valid(indexes, width)
    ensures var row := BuildRow(width, indexes, Fido(IntendedStatus));
      forall k :: 0 <= k < |indexes| ==> row[indexes[k]] == FidoCells[k]
  {
    FidoCellsExpected();
    FidoPhotosExpected();
  }

  /** The cat's row holds the test's expected cells at the positions of the filled columns. */
  lemma FreyaRow(width: nat, indexes: seq<nat>)
    requires Valid(indexes, width)
    ensures var row := BuildRow(width, indexes, Freya(IntendedStatus));
      forall k :: 0 <= k < |indexes| ==> row[indexes[k]] == FreyaCells[k]
  {
    FreyaCellsExpected();
    FreyaPhotosExpected();
  }

  /** A list of which exactly two records qualify gives the header row and their two rows. */
  lemma TwoListed(headers: seq<string>, pets: seq<Pet>, a: Pet, b: Pet)
    requires forall c :: c in Columns ==> c in headers
    requires Qualifying(pets) == [a, b]
    ensures var indexes := ResolveLayout(headers).value;
      CreateCsv(headers, pets).value == [headers, BuildRow(|headers|, indexes, a), BuildRow(|headers|, indexes, b)]
  {
    TwoRecordRows(|headers|, ResolveLayout(headers).value, pets, a, b);
    ListedFeed(headers, pets);
  }

  /** With the marker in both statuses the feed lists the dog, then the cat. */
  lemma IntendedFeedRows(headers: seq<string>)
    requires forall c :: c in Columns ==> c in headers
    ensures var indexes := ResolveLayout(headers).value;
      var out := CreateCsv(headers, Animals(IntendedStatus, IntendedStatus, IntendedStatus)).value;
      && |out| == 3 && out[0] == headers
      && out[1] == BuildRow(|headers|, indexes, Fido(IntendedStatus))
      && out[2] == BuildRow(|headers|, indexes, Freya(IntendedStatus))
  {
    IntendedRecordsListed();
    TwoListed(headers, Animals(IntendedStatus, IntendedStatus, IntendedStatus), Fido(IntendedStatus), Freya(IntendedStatus));
  }

  /** The dog's row in the feed is the one the test expects. */
  lemma IntendedDogRow(headers: seq<string>)
    requires forall c :: c in Columns ==> c in headers
    ensures var indexes := ResolveLayout(headers).value;
      var out := CreateCsv(headers, Animals(IntendedStatus, IntendedStatus, IntendedStatus)).value;
      && |out| == 3 && |out[1]| == |headers|
      && (forall k :: 0 <= k < |indexes| ==> out[1][indexes[k]] == FidoCells[k])
      && (forall i :: 0 <= i < |headers| && i !in indexes ==> out[1][i] == "")
  {
    IntendedFeedRows(headers);
    FidoRow(|headers|, ResolveLayout(headers).value);
  }

  /** The cat's row in the feed is the one the test expects. */
  lemma IntendedCatRow(headers: seq<string>)
    requires forall c :: c in Columns ==> c in headers
    ensures var indexes := ResolveLayout(headers).value;
      var out := CreateCsv(headers, Animals(IntendedStatus, IntendedStatus, IntendedStatus)).value;
      && |out| == 3 && |out[2]| == |headers|
      && (forall k :: 0 <= k < |indexes| ==> out[2][indexes[k]] == FreyaCells[k])
      && (forall i :: 0 <= i < |headers| && i !in indexes ==> out[2][i] == "")
  {
    IntendedFeedRows(headers);
    FreyaRow(|headers|, ResolveLayout(headers).value);
  }

  lemma NoBreaksInNotes(text: string)
    requires text == "test dog notes"
    ensures BreakLines(text) == text
  {
    assert forall d :: d in text ==> !IsLineBreak(d);
  }

  lemma LfCrBreaks(breaks: string)
    requires breaks == "\n\r"
    ensures BreakLines(breaks) == LineBreakMarkup + LineBreakMarkup
  {
    assert BreakLines(breaks[1..]) == LineBreakMarkup + BreakLines([]);
  }

  lemma TwoMarkups(text: string)
    requires text == "test dog notes"
    ensures text + (LineBreakMarkup + LineBreakMarkup) == "test dog notes<br /><br />"
  {
  }

  /** The description example the handler's test relies on: a LF followed by a CR gives two markups. */
  lemma FlattenExample(notes: string)
    requires notes == "test dog notes\n\r"
    ensures FlattenLineBreaks(notes) == "test dog notes<br /><br />"
  {
    var text, breaks := notes[..14], notes[14..];
    assert notes == text + breaks;
    NoBreaksInNotes(text);
    LfCrBreaks(breaks);
    BreakLinesAppend(text, breaks);
    FlattenIsBreakLines(notes);
    TwoMarkups(text);
  }
}
