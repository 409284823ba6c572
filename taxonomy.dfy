/**
 * The English service taxonomy: thirteen categories, each with its list of
 * surface phrases, and the type ("complementing" or "substituting") of each.
 * The keyword dictionary is kept as a sequence of categories in the order of
 * the dictionary literal, which is the order in which Python iterates it.
 */
module Taxonomy {
  import opened Text

  datatype Category = Category(id: string, phrases: seq<string>)

  const Complementing: string := "complementing"
  const Substituting: string := "substituting"

  /** The category ids, as the key set of the dictionary. */
  function Ids(cats: seq<Category>): (r: set<string>)
    ensures forall j :: 0 <= j < |cats| ==> cats[j].id in r
    ensures forall k :: k in r ==> exists j :: 0 <= j < |cats| && cats[j].id == k
  {
    set j | 0 <= j < |cats| :: cats[j].id
  }

  /** The category ids in dictionary order. */
  function IdSeq(cats: seq<Category>): (r: seq<string>)
    ensures |r| == |cats|
    ensures forall i :: 0 <= i < |cats| ==> r[i] == cats[i].id
  {
    seq(|cats|, i requires 0 <= i < |cats| => cats[i].id)
  }

  /** The position of the entry for `id`, searching from `k` on. */
  function IndexFrom(cats: seq<Category>, id: string, k: nat): (j: nat)
    requires k <= |cats|
    requires exists i :: k <= i < |cats| && cats[i].id == id
    ensures k <= j < |cats| && cats[j].id == id
    decreases |cats| - k
  {
    if cats[k].id == id then k else IndexFrom(cats, id, k + 1)
  }

  /** `d[id]`: the position of the entry whose key is `id`. */
  function IndexOf(cats: seq<Category>, id: string): (j: nat)
    requires id in Ids(cats)
    ensures j < |cats| && cats[j].id == id
  {
    IndexFrom(cats, id, 0)
  }

  /** A dictionary has one entry per key. */
  predicate DistinctIds(cats: seq<Category>) {
    forall i, j :: 0 <= i < j < |cats| ==> cats[i].id != cats[j].id
  }

  /** What a keyword dictionary must satisfy to be scanned: one entry per category
      and no empty phrase (an empty phrase would never let a scan advance). */
  predicate WellFormed(cats: seq<Category>) {
    && DistinctIds(cats)
    && forall j :: 0 <= j < |cats| ==> Scannable(cats[j])
  }

  /** No phrase of the category is empty. */
  predicate Scannable(cat: Category) {
    forall p :: p in cat.phrases ==> p != []
  }

  const MaintenancePhrases: seq<string> := [
      "maintenance", "repair", "repairs", "repair and maintenance",
      "aftermarket service", "after-sales service", "after sales service",
      "field service", "mro", "maintenance overhaul", "overhaul",
      "service and repair", "servicing", "product servicing",
      "scheduled maintenance", "unscheduled maintenance"]

  const SparePartsPhrases: seq<string> := [
      "spare parts", "replacement parts", "parts support",
      "parts and service", "parts sales", "component parts",
      "aftermarket parts", "parts distribution", "parts logistics",
      "genuine parts", "parts supply", "parts fulfillment"]

  const LeasingPhrases: seq<string> := [
      "lease", "leasing", "operating lease", "capital lease",
      "rental", "rentals", "equipment rental",
      "power by the hour", "power-by-the-hour",
      "fee per use", "usage-based pricing", "subscription service",
      "as-a-service", "aaS", "equipment-as-a-service"]

  const WarrantyPhrases: seq<string> := [
      "warranty", "extended warranty", "warranty service",
      "product warranty", "service warranty",
      "insurance", "product insurance", "coverage plan"]

  const InstallationPhrases: seq<string> := [
      "installation", "installing", "commissioning",
      "system installation", "equipment installation",
      "assembly", "setup", "on-site installation",
      "deployment service"]

  const TechnicalSupportPhrases: seq<string> := [
      "technical support", "tech support", "support services",
      "customer support", "helpdesk", "troubleshooting",
      "remote support", "call center support", "24/7 support",
      "service hotline", "technical assistance"]

  const CustomizationPhrases: seq<string> := [
      "customization", "customized solutions", "customised solutions",
      "tailored solution", "bespoke solution",
      "engineering services", "engineering design",
      "r&d services", "research and development service",
      "product adaptation", "system tailoring"]

  const DistributionPhrases: seq<string> := [
      "distribution", "product distribution", "distribution services",
      "procurement", "purchasing services", "supply procurement",
      "trade and distribution", "inventory procurement",
      "material sourcing", "logistics service", "fulfillment services"]

  const TrainingPhrases: seq<string> := [
      "training", "training services", "skills training",
      "consulting", "consultancy", "professional consulting",
      "customer training", "technical training",
      "education services", "on-site training", "certification training"]

  const SolutionsPhrases: seq<string> := [
      "solution", "solutions", "integrated solution",
      "system integration", "integration services",
      "turnkey solution", "system architecture",
      "end-to-end solution", "platform integration"]

  const DigitalPhrases: seq<string> := [
      "software as a service", "saas", "cloud service",
      "digital services", "digital platform",
      "streaming services", "online services",
      "remote monitoring service", "iot service",
      "data analytics service", "cloud-based service"]

  const PerformancePhrases: seq<string> := [
      "performance-based", "performance based",
      "performance contract", "performance guarantee",
      "pay per use", "fee per use", "pay-per-hour",
      "service-level agreement", "sla contract",
      "availability guarantee", "uptime guarantee"]

  const RecyclingPhrases: seq<string> := [
      "recycling", "recycle services", "recycling program",
      "process management", "waste management",
      "resource recovery", "end-of-life services",
      "asset disposal", "equipment disposal", "reverse logistics"]

  const Keywords: seq<Category> := [
    Category("maintenance_and_repair", MaintenancePhrases),
    Category("spare_parts_support", SparePartsPhrases),
    Category("leasing_and_rental", LeasingPhrases),
    Category("warranty_and_insurance", WarrantyPhrases),
    Category("installation_and_commissioning", InstallationPhrases),
    Category("technical_support", TechnicalSupportPhrases),
    Category("customization_and_r&d_services", CustomizationPhrases),
    Category("distribution_and_procurement", DistributionPhrases),
    Category("training_and_consulting", TrainingPhrases),
    Category("solutions_system_integration", SolutionsPhrases),
    Category("digital_and_streaming_services", DigitalPhrases),
    Category("performance_based_contracts", PerformancePhrases),
    Category("recycling_and_process_management", RecyclingPhrases)
  ]

  const CategoryType: map<string, string> := map[
    "maintenance_and_repair" := Complementing,
    "spare_parts_support" := Complementing,
    "warranty_and_insurance" := Complementing,
    "installation_and_commissioning" := Complementing,
    "technical_support" := Complementing,
    "training_and_consulting" := Complementing,
    "distribution_and_procurement" := Complementing,
    "solutions_system_integration" := Complementing,
    "customization_and_r&d_services" := Complementing,
    "digital_and_streaming_services" := Complementing,
    "leasing_and_rental" := Substituting,
    "performance_based_contracts" := Substituting,
    "recycling_and_process_management" := Substituting
  ]

  /** Every type is one of the two known ones. */
  predicate KnownTypes(types: map<string, string>) {
    forall k :: k in types ==> types[k] == Complementing || types[k] == Substituting
  }

  /** Thirteen categories, one entry each, and the type table has exactly the same keys. */
  lemma KeywordsShape()
    ensures |Keywords| == 13
    ensures DistinctIds(Keywords)
    ensures Ids(Keywords) == CategoryType.Keys
  {
    KeywordsDistinct();
    KeywordsKeys();
  }

  lemma KeywordsDistinct()
    ensures DistinctIds(Keywords)
  {
    forall i, j | 0 <= i < j < |Keywords| ensures Keywords[i].id != Keywords[j].id {
      assert i == 0 || i == 1 || i == 2 || i == 3 || i == 4 || i == 5 || i == 6 || i == 7 || i == 8 || i == 9 || i == 10 || i == 11 || i == 12;
      assert j == 0 || j == 1 || j == 2 || j == 3 || j == 4 || j == 5 || j == 6 || j == 7 || j == 8 || j == 9 || j == 10 || j == 11 || j == 12;
    }
  }

  lemma KeywordsKeys()
    ensures Ids(Keywords) == CategoryType.Keys
  {
    IdsAreTypeKeys();
    TypeKeysAreIds();
  }

  lemma IdsAreTypeKeys()
    ensures forall k :: k in Ids(Keywords) ==> k in CategoryType
  {
    forall k | k in Ids(Keywords) ensures k in CategoryType {
      var j :| 0 <= j < |Keywords| && Keywords[j].id == k;
      assert j == 0 || j == 1 || j == 2 || j == 3 || j == 4 || j == 5 || j == 6 || j == 7 || j == 8 || j == 9 || j == 10 || j == 11 || j == 12;
    }
  }

  lemma TypeKeysAreIds()
    ensures forall k :: k in CategoryType ==> k in Ids(Keywords)
  {
    var ids := Ids(Keywords);
    assert Keywords[0].id in ids;
    assert Keywords[1].id in ids;
    assert Keywords[2].id in ids;
    assert Keywords[3].id in ids;
    assert Keywords[4].id in ids;
    assert Keywords[5].id in ids;
    assert Keywords[6].id in ids;
    assert Keywords[7].id in ids;
    assert Keywords[8].id in ids;
    assert Keywords[9].id in ids;
    assert Keywords[10].id in ids;
    assert Keywords[11].id in ids;
    assert Keywords[12].id in ids;
  }

  /** Every type is complementing or substituting, and exactly three categories are substituting. */
  lemma CategoryTypes()
    ensures KnownTypes(CategoryType)
    ensures (set k | k in CategoryType && CategoryType[k] == Substituting)
         == {"leasing_and_rental", "performance_based_contracts", "recycling_and_process_management"}
  {
  }

  /** A phrase that starts and ends with a letter or a digit: the `\b` around it then
      asks for a non-word neighbour (or the edge of the text) on both sides. */
  predicate AlnumEnds(p: string) {
    p != [] && IsAlnum(p[0]) && IsAlnum(p[|p| - 1])
  }

  predicate AlnumPhrases(ps: seq<string>) {
    forall i :: 0 <= i < |ps| ==> AlnumEnds(ps[i])
  }

  /** Every category has phrases, and every phrase begins and ends with a letter or digit. */
  lemma PhrasesShape()
    ensures forall j :: 0 <= j < |Keywords| ==> Keywords[j].phrases != []
    ensures forall j :: 0 <= j < |Keywords| ==> AlnumPhrases(Keywords[j].phrases)
    ensures WellFormed(Keywords)
  {
    CategoryPhrasesShape();
    forall j | 0 <= j < |Keywords|
      ensures Keywords[j].phrases != [] && AlnumPhrases(Keywords[j].phrases)
    {
      assert j == 0 || j == 1 || j == 2 || j == 3 || j == 4 || j == 5 || j == 6 || j == 7 || j == 8 || j == 9 || j == 10 || j == 11 || j == 12;
    }
    KeywordsDistinct();
  }

  /** The categories are not disjoint: "fee per use" is both a leasing and a performance phrase. */
  lemma FeePerUseShared()
    ensures Keywords[2].id == "leasing_and_rental" && "fee per use" in Keywords[2].phrases
    ensures Keywords[11].id == "performance_based_contracts" && "fee per use" in Keywords[11].phrases
  {
  }

  /** "aaS" (the fourteenth leasing phrase) has an upper-case letter; building the
      patterns lower-cases it to "aas". */
  lemma AasIsLowerCased()
    ensures Keywords[2].phrases[13] == "aaS" && !IsLower("aaS")
    ensures Lower("aaS") == "aas"
  {
    assert "aaS"[2] == 'S';
    assert Lower("aaS")[2] == 's';
  }

  /** The phrase lists one by one: letters or digits at both ends. */
  lemma CategoryPhrasesShape()
    ensures AlnumPhrases(MaintenancePhrases)
    ensures AlnumPhrases(SparePartsPhrases)
    ensures AlnumPhrases(LeasingPhrases)
    ensures AlnumPhrases(WarrantyPhrases)
    ensures AlnumPhrases(InstallationPhrases)
    ensures AlnumPhrases(TechnicalSupportPhrases)
    ensures AlnumPhrases(CustomizationPhrases)
    ensures AlnumPhrases(DistributionPhrases)
    ensures AlnumPhrases(TrainingPhrases)
    ensures AlnumPhrases(SolutionsPhrases)
    ensures AlnumPhrases(DigitalPhrases)
    ensures AlnumPhrases(PerformancePhrases)
    ensures AlnumPhrases(RecyclingPhrases)
  {
    MaintenancePhrasesAlnum();
    SparePartsPhrasesAlnum();
    LeasingPhrasesAlnum();
    WarrantyPhrasesAlnum();
    InstallationPhrasesAlnum();
    TechnicalSupportPhrasesAlnum();
    CustomizationPhrasesAlnum();
    DistributionPhrasesAlnum();
    TrainingPhrasesAlnum();
    SolutionsPhrasesAlnum();
    DigitalPhrasesAlnum();
    PerformancePhrasesAlnum();
    RecyclingPhrasesAlnum();
  }

  lemma MaintenancePhrasesAlnum()
    ensures AlnumPhrases(MaintenancePhrases)
  {
  }

  lemma SparePartsPhrasesAlnum()
    ensures AlnumPhrases(SparePartsPhrases)
  {
  }

  lemma LeasingPhrasesAlnum()
    ensures AlnumPhrases(LeasingPhrases)
  {
  }

  lemma WarrantyPhrasesAlnum()
    ensures AlnumPhrases(WarrantyPhrases)
  {
  }

  lemma InstallationPhrasesAlnum()
    ensures AlnumPhrases(InstallationPhrases)
  {
  }

  lemma TechnicalSupportPhrasesAlnum()
    ensures AlnumPhrases(TechnicalSupportPhrases)
  {
  }

  lemma CustomizationPhrasesAlnum()
    ensures AlnumPhrases(CustomizationPhrases)
  {
  }

  lemma DistributionPhrasesAlnum()
    ensures AlnumPhrases(DistributionPhrases)
  {
  }

  lemma TrainingPhrasesAlnum()
    ensures AlnumPhrases(TrainingPhrases)
  {
  }

  lemma SolutionsPhrasesAlnum()
    ensures AlnumPhrases(SolutionsPhrases)
  {
  }

  lemma DigitalPhrasesAlnum()
    ensures AlnumPhrases(DigitalPhrases)
  {
  }

  lemma PerformancePhrasesAlnum()
    ensures AlnumPhrases(PerformancePhrases)
  {
  }

  lemma RecyclingPhrasesAlnum()
    ensures AlnumPhrases(RecyclingPhrases)
  {
  }

}
