/**
 Source records as the records API returns them, and the filter that decides
 which of them the feed lists.
 */
module Pets {
  import opened Text

  /** One entry of a record's `Pictures` list; only its URL is used. */
  datatype Picture = Picture(url: string)

  /**
   A source record: its identifier, its named string fields, and its
   `Pictures` list (empty when the record has none).
   */
  datatype Pet = Pet(id: string, fields: map<string, string>, pictures: seq<Picture>)

  const StatusField: string := "Status"
  const SpeciesField: string := "Pet Species"
  const NameField: string := "Pet Name"
  const SexField: string := "Sex"
  const AgeField: string := "Pet Age"
  const NeedsField: string := "Special Needs"
  const SizeField: string := "Pet Size"
  const CoatField: string := "Coat Length"
  const MixedBreedField: string := "Mixed Breed"
  const DogBreedField: string := "Breed - Dog"
  const DogColorField: string := "Color - Dog"
  const CatBreedField: string := "Breed - Cat"
  const CatColorField: string := "Color - Cat"
  const OkDogsField: string := "Okay with Dogs"
  const OkCatsField: string := "Okay with Cats"
  const OkKidsField: string := "Okay with Kids"
  const DeclawedField: string := "Declawed"
  const HousetrainedField: string := "Housetrained"
  const AlteredField: string := "Altered"
  const ShotsField: string := "Up-to-date on Shots etc"
  const DescriptionField: string := "Public Description"

  /**
   The policy marker a status must contain for the record to be listed. The
   handler's own test records use "Published" instead; this is the marker the
   handler checks for.
   */
  const AvailableMarker: string := "Published - Available"

  const Dog: string := "Dog"
  const Cat: string := "Cat"

  /** A field's value; an absent field reads as the empty string. */
  function Field(p: Pet, key: string): string
  {
    if key in p.fields then p.fields[key] else ""
  }

  function Species(p: Pet): string
  {
    Field(p, SpeciesField)
  }

  /**
   The filter: the status contains the availability marker and the species
   is exactly one of the two supported ones, each field read as empty when
   absent.
   */
  predicate Qualifies(p: Pet)
  {
    Contains(Field(p, StatusField), AvailableMarker) && (Species(p) == Dog || Species(p) == Cat)
  }

  /** A record lacking either field is never listed. */
  lemma QualifiesMeaning(p: Pet)
    ensures Qualifies(p) <==>
      && StatusField in p.fields
      && (exists i :: OccursAt(p.fields[StatusField], AvailableMarker, i))
      && SpeciesField in p.fields
      && (p.fields[SpeciesField] == Dog || p.fields[SpeciesField] == Cat)
  {
    if StatusField !in p.fields {
      assert !OccursAt("", AvailableMarker, 0);
    }
  }
}
