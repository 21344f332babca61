/** Normalisation of a Plant.id classification response into one
    `PlantIdentification` (src/services/plantIdService.ts). The HTTP request
    is a parameter: its outcome is either the parsed body or the error it
    threw. */
module PlantIdService {
  import opened Strings
  import opened PlantTypes

  datatype PlantIdDetails = PlantIdDetails(
    commonNames: Option<seq<string>>,
    taxonomy: Option<Taxonomy>,
    url: Option<string>,
    description: Option<string>,
    imageUrl: Option<string>)

  datatype PlantIdSuggestion = PlantIdSuggestion(name: string, probability: real, details: Option<PlantIdDetails>)

  /** The body of the response; `suggestions` is absent when `result`,
      `result.classification` or the list itself is missing. */
  datatype PlantIdResponse = PlantIdResponse(suggestions: Option<seq<PlantIdSuggestion>>)

  const NoMatchesMessage := "No plant matches found"

  const DataUrlPrefix := "data:image/jpeg;base64,"

  const DefaultTaxonomy := Taxonomy("Plantae", "", "", "", "", "")

  /** The failed `suggestions?.length` test: missing or empty. */
  predicate HasSuggestions(resp: PlantIdResponse) {
    resp.suggestions.Some? && |resp.suggestions.value| > 0
  }

  /** `details?.common_names?.[0]`, when it is a non-empty string. */
  function FirstCommonName(s: PlantIdSuggestion): (r: Option<string>)
    ensures r.Some? ==> r.value != ""
    ensures r.Some? <==> s.details.Some? && s.details.value.commonNames.Some?
                         && |s.details.value.commonNames.value| > 0
                         && s.details.value.commonNames.value[0] != ""
    ensures r.Some? ==> r.value == s.details.value.commonNames.value[0]
  {
    match s.details
    case None => None
    case Some(d) =>
      match d.commonNames
      case None => None
      case Some(ns) => if |ns| > 0 && ns[0] != "" then Some(ns[0]) else None
  }

  /** The mapping of the best match, with the `||` fallbacks. */
  function Normalise(best: PlantIdSuggestion, imageBase64: string): (r: PlantIdentification)
    ensures r.scientificName == best.name && r.probability == best.probability
    ensures r.commonName == (if FirstCommonName(best).Some? then FirstCommonName(best).value else best.name)
    ensures r.imageUrl == DataUrlPrefix + imageBase64
    ensures best.details.None? || best.details.value.description.None? ==> r.description == ""
    ensures best.details.Some? && best.details.value.description.Some? ==> r.description == best.details.value.description.value
    ensures best.details.Some? && best.details.value.taxonomy.Some? ==> r.taxonomy == best.details.value.taxonomy.value
    ensures best.details.None? || best.details.value.taxonomy.None? ==> r.taxonomy == DefaultTaxonomy
  {
    PlantIdentification(
      FirstCommonName(best).GetOr(best.name),
      best.name,
      if best.details.Some? then best.details.value.description.GetOr("") else "",
      best.probability,
      DataUrlPrefix + imageBase64,
      if best.details.Some? then best.details.value.taxonomy.GetOr(DefaultTaxonomy) else DefaultTaxonomy)
  }

  /** `identifyPlantWithPlantId`: the outcome of the request is given. */
  function IdentifyWithPlantId(imageBase64: string, response: Result<PlantIdResponse>): (r: Result<PlantIdentification>)
    ensures response.Err? ==> r == Err(response.error)
    ensures response.Ok? && !HasSuggestions(response.value) ==> r == Err(Error(NoMatchesMessage, None))
    ensures r.Ok? <==> response.Ok? && HasSuggestions(response.value)
    ensures r.Ok? ==> r.value == Normalise(response.value.suggestions.value[0], imageBase64)
  {
    match response
    case Err(e) => Err(e)
    case Ok(resp) =>
      if !HasSuggestions(resp) then Err(Error(NoMatchesMessage, None))
      else Ok(Normalise(resp.suggestions.value[0], imageBase64))
  }

  /** Only the first suggestion matters: the others never change the result,
      even when they are more probable. */
  lemma OnlyFirstSuggestionUsed(imageBase64: string, best: PlantIdSuggestion, rest1: seq<PlantIdSuggestion>,
                                rest2: seq<PlantIdSuggestion>)
    ensures IdentifyWithPlantId(imageBase64, Ok(PlantIdResponse(Some([best] + rest1))))
         == IdentifyWithPlantId(imageBase64, Ok(PlantIdResponse(Some([best] + rest2))))
    ensures IdentifyWithPlantId(imageBase64, Ok(PlantIdResponse(Some([best] + rest1)))).Ok?
  {
  }

  /** The common name is never empty unless the suggestion's name is. */
  lemma CommonNameNonEmpty(best: PlantIdSuggestion, imageBase64: string)
    requires best.name != ""
    ensures Normalise(best, imageBase64).commonName != ""
  {
  }

  /** The image URL is the prefix followed by the input, unchanged. */
  lemma ImageUrlKeepsInput(best: PlantIdSuggestion, imageBase64: string)
    ensures IsPrefix(DataUrlPrefix, Normalise(best, imageBase64).imageUrl)
    ensures Normalise(best, imageBase64).imageUrl[|DataUrlPrefix|..] == imageBase64
  {
    var u := Normalise(best, imageBase64).imageUrl;
    assert u[..|DataUrlPrefix|] == DataUrlPrefix;
  }
}
