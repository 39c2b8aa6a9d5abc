/** The application constants the ingestion layer uses. */
module Config {

  const ProviderId: string := "ABC123"
  const ProviderLocationId: string := "LOC001"

  /** The client columns every processed client table must have. */
  const RequiredClientFields: seq<string> :=
    ["ProviderClientId", "FirstName", "LastName", "DateofBirth", "Gender", "ZipCode"]

  /** Lower-cased header spellings and the standard column names they are renamed to. */
  const FieldMapping: map<string, string> := map[
    "unique id" := "ProviderClientId",
    "uniqueid" := "ProviderClientId",
    "client id" := "ProviderClientId",
    "clientid" := "ProviderClientId",
    "id" := "ProviderClientId",
    "first name" := "FirstName",
    "firstname" := "FirstName",
    "first" := "FirstName",
    "last name" := "LastName",
    "lastname" := "LastName",
    "last" := "LastName",
    "date of birth" := "DateofBirth",
    "dateofbirth" := "DateofBirth",
    "dob" := "DateofBirth",
    "birth date" := "DateofBirth",
    "birthdate" := "DateofBirth",
    "gender" := "Gender",
    "sex" := "Gender",
    "zip" := "ZipCode",
    "zipcode" := "ZipCode",
    "zip code" := "ZipCode",
    "postal code" := "ZipCode",
    "postalcode" := "ZipCode"
  ]

  /** Every header the mapping renames ends up as one of the required client columns. */
  lemma FieldMappingTargets()
    ensures forall k :: k in FieldMapping ==> FieldMapping[k] in RequiredClientFields
  {
  }

  /** No header the mapping renames is longer than 13 characters ("date of birth"). */
  lemma FieldMappingKeyLengths()
    ensures forall k :: k in FieldMapping ==> |k| <= 13
  {
  }
}
