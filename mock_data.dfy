/** The constant fixture returned when the Plant.id key is not configured. */
module MockData {
  import opened Strings
  import opened PlantTypes

  function MockIdentificationResult(): IdentificationResult {
    IdentificationResult(
      "mock-id-123",
      MetaData("2025-01-21", "2025-01-21T11:48:20+08:00"),
      ["data:image/jpeg;base64,/9j/4AAQSkZJRg..."],
      [OrchidSuggestion(), IndoorPlantSuggestion()],
      None)
  }

  /** What the fixture holds: two suggestions, ranked, both in kingdom
      Plantae and phylum Tracheophyta, the first the moth orchid. */
  lemma MockFixture()
    ensures var r := MockIdentificationResult();
      && |r.suggestions| == 2
      && r.suggestions[0].id == 1 && r.suggestions[1].id == 2
      && r.suggestions[0].probability == 0.92 && r.suggestions[1].probability == 0.85
      && r.suggestions[0].probability >= r.suggestions[1].probability
      && (forall i :: 0 <= i < 2 ==> r.suggestions[i].plantDetails.taxonomy.kingdom == "Plantae")
      && (forall i :: 0 <= i < 2 ==> r.suggestions[i].plantDetails.taxonomy.phylum == "Tracheophyta")
      && r.suggestions[0].plantName == "Orchid"
      && r.suggestions[0].scientificName == "Phalaenopsis amabilis"
      && r.suggestions[0].plantDetails.commonNames == ["Moth Orchid", "Moon Orchid", "White Star Orchid"]
      && r.id == "mock-id-123" && r.debug == None
  {
    var o, p := OrchidSuggestion(), IndoorPlantSuggestion();
  }

  // The long literals are written as concatenations of shorter pieces; the
  // value is the same string.
  function OrchidSuggestion(): (s: Suggestion)
    ensures s.id == 1 && s.probability == 0.92
    ensures s.plantName == "Orchid" && s.scientificName == "Phalaenopsis amabilis"
    ensures s.plantDetails.commonNames == ["Moth Orchid", "Moon Orchid", "White Star Orchid"]
    ensures s.plantDetails.taxonomy.kingdom == "Plantae" && s.plantDetails.taxonomy.phylum == "Tracheophyta"
  {
    Suggestion(
      1, "Orchid", "Phalaenopsis amabilis", 0.92,
      PlantDetails(
        ["Moth Orchid", "Moon Orchid", "White Star Orchid"],
        "The Moth Orchid is one of the most popular "
        + "indoor orchids, known for its long-lasting "
        + "flowers and ease of care. Its elegant white "
        + "flowers resemble moths in flight.",
        Taxonomy("Plantae", "Orchidaceae", "Phalaenopsis", "Asparagales", "Tracheophyta", "Liliopsida"),
        "https://www.bing.com/search?q=Phalaenopsis+amabilis",
        "https://upload.wikimedia.org/wikipedia/"
        + "commons/thumb/1/1e/Phalaenopsis_amabilis.jpg/"
        + "800px-Phalaenopsis_amabilis.jpg"))
  }

  function IndoorPlantSuggestion(): (s: Suggestion)
    ensures s.id == 2 && s.probability == 0.85
    ensures s.plantDetails.taxonomy.kingdom == "Plantae" && s.plantDetails.taxonomy.phylum == "Tracheophyta"
  {
    Suggestion(
      2, "Indoor Plant", "", 0.85,
      PlantDetails(
        ["House Plant"],
        "A decorative indoor plant with green foliage.",
        Taxonomy("Plantae", "", "", "", "Tracheophyta", "Plant"),
        "https://www.bing.com/search?q=indoor+plant+care",
        ""))
  }
}
