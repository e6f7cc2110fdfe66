/** The two record kinds the parser builds. In the source each record is a
    dictionary with a fixed set of keys whose values are strings or `None`;
    here each key is a field and `None` is `Option.None`, kept distinct from
    the empty string. */
module Records {
  import opened Wrappers

  /** An INDI record. `fatherId`/`motherId` are filled only by parent
      resolution; the birth fields only by the birth-block sweep. */
  datatype Individual = Individual(
    id: string,
    nameRaw: Option<string>,
    firstName: Option<string>,
    lastName: Option<string>,
    birthDate: Option<string>,
    birthPlace: Option<string>,
    fatherId: Option<string>,
    motherId: Option<string>,
    familyAsChild: Option<string>)

  /** A FAM record; `childrenIds` keeps the CHIL lines in source order,
      repetitions included. */
  datatype Family = Family(
    id: string,
    husbandId: Option<string>,
    wifeId: Option<string>,
    childrenIds: seq<string>)

  /** The record a level-0 INDI header creates: every field `None`. */
  function NewIndividual(id: string): Individual {
    Individual(id, None, None, None, None, None, None, None, None)
  }

  /** The record a level-0 FAM header creates. */
  function NewFamily(id: string): Family {
    Family(id, None, None, [])
  }
}
