/** The records that flow through the identification pipeline: the vision
    service's labels, the suggestion list built by the plant service
    (`PlantIdentificationResult` in src/services/plantService.ts) and the
    single-best result of the Plant.id path (src/types/plant.ts). */
module PlantTypes {
  import opened Strings

  /** A label from the vision service: `{ name, confidence }`. */
  datatype Tag = Tag(name: string, confidence: real)

  /** The sort key of tags. */
  function Confidence(t: Tag): real { t.confidence }

  /** An entry of the vision service's `objects` list: `{ object, confidence }`. */
  datatype DetectedObject = DetectedObject(objectName: string, confidence: real)

  datatype Taxonomy = Taxonomy(
    kingdom: string,
    family: string,
    genus: string,
    order: string,
    phylum: string,
    class_: string)

  datatype PlantDetails = PlantDetails(
    commonNames: seq<string>,
    description: string,
    taxonomy: Taxonomy,
    url: string,
    imageUrl: string)

  datatype Suggestion = Suggestion(
    id: int,
    plantName: string,
    scientificName: string,
    probability: real,
    plantDetails: PlantDetails)

  datatype MetaData = MetaData(date: string, datetime: string)

  /** The echo of the vision response kept for debugging (its typed parts;
      `objects` is absent when the response has none). */
  datatype Debug = Debug(tags: seq<Tag>, objects: Option<seq<DetectedObject>>)

  /** The ranked result of the heuristic path and of the mock fixture. */
  datatype IdentificationResult = IdentificationResult(
    id: string,
    metaData: MetaData,
    images: seq<string>,
    suggestions: seq<Suggestion>,
    debug: Option<Debug>)

  /** A thrown error: its `message`, and for an HTTP failure the body the
      server sent back (`error.response.data`). */
  datatype Error = Error(message: string, responseData: Option<string>)

  /** A computation that returns a value or throws. */
  datatype Result<+T> = Ok(value: T) | Err(error: Error)

  /** The normalised single-best result of the Plant.id path. */
  datatype PlantIdentification = PlantIdentification(
    commonName: string,
    scientificName: string,
    description: string,
    probability: real,
    imageUrl: string,
    taxonomy: Taxonomy)

  /** A saved identification (the `Plant` table); `createdAt` in milliseconds. */
  datatype PlantRecord = PlantRecord(
    id: string,
    commonName: string,
    scientificName: string,
    description: string,
    imageUrl: string,
    careInfo: Option<string>,
    userId: string,
    createdAt: int)

  /** The sort key of `orderBy: { createdAt: 'desc' }`. */
  function CreatedAt(p: PlantRecord): real { p.createdAt as real }

  /** An HTTP reply: status code and JSON body. */
  datatype Response<+B> = Response(status: nat, body: B)
}
