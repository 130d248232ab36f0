/**
  Save preparation of a service instance: extraction of its searchable
  attributes and design linkage from its XML document, derivation of its
  coverage geometry (embedded WKT first, the UN/LOCODE gazetteer as
  fallback), and the two-phase orchestration that reports structural and
  geographic failures apart.

  The XML document is seen through the parsed tree the collaborators hand
  back: a map from element path (local names, `/`-separated) to the text of
  that element. The schema validator, the WKT-to-GeoJSON converter, the XML
  node rewriter, the design repository and the bundled gazetteer resource
  are collaborators, passed in as a `Collaborators` value.
 */
module Instances {
  import opened Options
  import opened Coordinates
  import opened Gazetteer

  /** A parsed document: element path to element text. */
  type XmlTree = map<string, string>

  /** A GeoJSON geometry as the converter produces it; its structure is the converter's business. */
  type GeoJson = string

  const NamePath: string := "serviceInstance/name"
  const VersionPath: string := "serviceInstance/version"
  const InstanceIdPath: string := "serviceInstance/id"
  const KeywordsPath: string := "serviceInstance/keywords"
  const StatusPath: string := "serviceInstance/status"
  const DescriptionPath: string := "serviceInstance/description"
  const UrlPath: string := "serviceInstance/URL"
  const MmsiPath: string := "serviceInstance/MMSI"
  const ImoPath: string := "serviceInstance/IMO"
  const ServiceTypePath: string := "serviceInstance/serviceType"
  const InstanceUnLoCodePath: string := "serviceInstance/unLoCode"
  const DesignIdPath: string := "serviceInstance/implementsServiceDesign/id"
  const DesignVersionPath: string := "serviceInstance/implementsServiceDesign/version"
  const CoverageUnLoCodePath: string := "serviceInstance/coversAreas/unLoCode"

  /** Where the embedded coverage geometry is read from. */
  const GeometryReadPath: string := "serviceInstance/coversAreas/coversArea/geometryAsWKT"

  /**
    Where the geometry derived from the gazetteer is written to. It is not
    the read path: the first step is `coversArea`, not `coversAreas`.
   */
  const GeometryRewritePath: string := "serviceInstance/coversArea/coversArea/geometryAsWKT"

  const InstanceSchema: string := "ServiceInstanceSchema.xsd"

  /** The text of the element at `path`; an absent element reads as the empty string. */
  function Text(doc: XmlTree, path: string): string {
    if path in doc then doc[path] else ""
  }

  /** The rewritten geometry never lands where the geometry is read from. */
  lemma RewriteMissesReadPath()
    ensures GeometryRewritePath != GeometryReadPath
  {
    assert GeometryRewritePath[26] != GeometryReadPath[26];
  }

  datatype Specification = Specification(specificationId: string)

  datatype Design = Design(designId: string, version: string, specifications: set<Specification>)

  /** The answer of the design repository to a lookup by domain id and version. */
  datatype Lookup = Found(design: Design) | NotFound | LookupFailed

  /** The design an instance document says it implements. */
  datatype DesignImplementation = DesignImplementation(designId: string, version: string)

  datatype Collaborators = Collaborators(
    /** The XML parser; None when the text is not well-formed. */
    parse: string -> Option<XmlTree>,
    /** The schema validator, given the document text and the schema name; false stands for the validator throwing (its return value is not used). */
    validateXml: (string, string) -> bool,
    /** WKT to GeoJSON; None when the WKT reader rejects the text. */
    toGeoJson: string -> Option<GeoJson>,
    /** Replace the text at a path: (new text, document text, path); None when it throws. */
    updateXmlNode: (string, string, string) -> Option<string>,
    /** The design repository, by domain id and version. */
    findByDomainId: (string, string) -> Lookup,
    /** The bundled gazetteer dataset; None when it cannot be read. */
    unLoCodeResource: Option<seq<Record>>)

  /** The ten searchable scalar attributes of an instance. */
  datatype AttributeValues = AttributeValues(
    name: string, version: string, instanceId: string, keywords: string, status: string,
    comment: string, endpointUri: string, mmsi: string, imo: string, serviceType: string)

  /** The attributes a document defines, element by element. */
  function ReadAttributes(doc: XmlTree): (a: AttributeValues)
  {
    AttributeValues(
      Text(doc, NamePath), Text(doc, VersionPath), Text(doc, InstanceIdPath), Text(doc, KeywordsPath),
      Text(doc, StatusPath), Text(doc, DescriptionPath), Text(doc, UrlPath), Text(doc, MmsiPath),
      Text(doc, ImoPath), Text(doc, ServiceTypePath))
  }

  /** A document without any of the elements yields the empty string for every attribute. */
  lemma AbsentAttributesAreEmpty(doc: XmlTree)
    requires forall p :: p in doc ==>
      (p != NamePath && p != VersionPath && p != InstanceIdPath && p != KeywordsPath && p != StatusPath
       && p != DescriptionPath && p != UrlPath && p != MmsiPath && p != ImoPath && p != ServiceTypePath)
    ensures ReadAttributes(doc) == AttributeValues("", "", "", "", "", "", "", "", "", "")
  {
  }

  /** The unlocode after an extraction: a non-empty extracted code replaces it, an empty one leaves it. */
  function UnLoCodeAfter(current: string, extracted: string): (r: string)
    ensures extracted != "" ==> r == extracted
    ensures extracted == "" ==> r == current
  {
    if |extracted| > 0 then extracted else current
  }

  /** Extracting the same code a second time changes nothing. */
  lemma UnLoCodeAfterIdempotent(current: string, extracted: string)
    ensures UnLoCodeAfter(UnLoCodeAfter(current, extracted), extracted) == UnLoCodeAfter(current, extracted)
  {
  }

  function DesignReference(doc: XmlTree): DesignImplementation {
    DesignImplementation(Text(doc, DesignIdPath), Text(doc, DesignVersionPath))
  }

  /** The part of an instance the geometry phase reads and writes. */
  datatype GeoState = GeoState(unlocode: string, geometry: Option<GeoJson>, content: string)

  /** Where the coverage geometry comes from, in order of precedence. */
  datatype GeometrySource = Embedded(wkt: string) | FromGazetteer(code: string) | NoGeometry

  function GeometrySourceOf(doc: XmlTree): (source: GeometrySource)
    ensures source.Embedded? <==> Text(doc, GeometryReadPath) != ""
    ensures source.FromGazetteer? <==> Text(doc, GeometryReadPath) == "" && Text(doc, CoverageUnLoCodePath) != ""
    ensures source.Embedded? ==> source.wkt == Text(doc, GeometryReadPath)
    ensures source.FromGazetteer? ==> source.code == Text(doc, CoverageUnLoCodePath)
  {
    var wkt := Text(doc, GeometryReadPath);
    var code := Text(doc, CoverageUnLoCodePath);
    if |wkt| > 0 then Embedded(wkt)
    else if |code| > 0 then FromGazetteer(code)
    else NoGeometry
  }

  /** The longitude-first point WKT of a gazetteer entry. */
  function PointOf(e: Entry): string {
    PointWkt(e.longitude, e.latitude)
  }

  /** The point text of an entry reads back as x = longitude, y = latitude. */
  lemma PointOfIsLongitudeFirst(e: Entry)
    ensures ParsePointWkt(PointOf(e)) == Some(XY(e.longitude, e.latitude))
  {
    PointWktRoundTrip(e.longitude, e.latitude);
  }

  /**
    End to end: the point placed for a code is the one whose x is the
    longitude and whose y is the latitude decoded from the last record of the
    dataset stored under that code.
   */
  lemma GazetteerPointFollowsRecord(records: seq<Record>, i: nat)
    requires i < |records| && DecodeRecord(records[i]).Some?
    requires forall j :: i < j < |records| ==> !StoredUnder(DecodeRecord(records[j]), DecodeRecord(records[i]).value.0)
    ensures var code := records[i].country.value + records[i].location.value;
      var p := DecodeCoordinates(records[i].coordinates.value).value;
      code in BuildTable(records) && ParsePointWkt(PointOf(BuildTable(records)[code])) == Some(XY(p.longitude, p.latitude))
  {
    BuildTableLastWins(records, i);
    var code := DecodeRecord(records[i]).value.0;
    PointOfIsLongitudeFirst(BuildTable(records)[code]);
  }

  function Find(table: map<string, Entry>, code: string): (r: Option<Entry>)
    ensures r.Some? <==> code in table
    ensures r.Some? ==> r.value == table[code]
  {
    if code in table then Some(table[code]) else None
  }

  /**
    The effect of placing a looked-up entry on an instance: nothing for a
    missing entry or a point the converter rejects; otherwise the geometry is
    the point's GeoJSON, and the document text carries the point WKT at the
    rewrite path unless the rewrite fails.
   */
  function ApplyEntry(e: Option<Entry>, g: GeoState, env: Collaborators): (after: GeoState)
    ensures after.unlocode == g.unlocode
    ensures e.None? || env.toGeoJson(PointOf(e.value)).None? ==> after == g
    ensures e.Some? && env.toGeoJson(PointOf(e.value)).Some? ==>
      && after.geometry == env.toGeoJson(PointOf(e.value))
      && after.content == (match env.updateXmlNode(PointOf(e.value), g.content, GeometryRewritePath)
                           case Some(xml) => xml
                           case None => g.content)
  {
    match e
    case None => g
    case Some(entry) =>
      var wkt := PointOf(entry);
      match env.toGeoJson(wkt)
      case None => g
      case Some(json) =>
        match env.updateXmlNode(wkt, g.content, GeometryRewritePath)
        case None => g.(geometry := Some(json))
        case Some(xml) => g.(geometry := Some(json), content := xml)
  }

  /** The outcome of a geometry step: whether it succeeded, the instance's geometry part, and the gazetteer cache after it. */
  datatype GeoResult = GeoResult(ok: bool, geo: GeoState, cache: Option<map<string, Entry>>)

  /** Lazy lookup: load the table when the cache is empty (failing if the dataset cannot be read), then place the entry. */
  function MapUnLoCode(g: GeoState, code: string, cache: Option<map<string, Entry>>, env: Collaborators): (r: GeoResult)
    ensures cache.Some? ==> r.ok && r.cache == cache
    ensures cache.None? ==> r.cache == Some(LoadedTable(env.unLoCodeResource)) && r.ok == env.unLoCodeResource.Some?
    ensures !r.ok ==> r.geo == g
    ensures r.ok ==> r.geo == ApplyEntry(Find(r.cache.value, code), g, env)
  {
    if cache.None? && env.unLoCodeResource.None? then GeoResult(false, g, Some(map[]))
    else
      var table := if cache.Some? then cache.value else BuildTable(env.unLoCodeResource.value);
      GeoResult(true, ApplyEntry(Find(table, code), g, env), Some(table))
  }

  /** The geometry phase: parse the document, take the coverage unlocode, and derive the geometry by precedence. */
  function ResolveGeometry(g: GeoState, cache: Option<map<string, Entry>>, env: Collaborators): (r: GeoResult)
    ensures env.parse(g.content).None? ==> r == GeoResult(false, g, cache)
    ensures r.geo.content != g.content ==> env.parse(g.content).Some? && GeometrySourceOf(env.parse(g.content).value).FromGazetteer?
    ensures r.cache != cache ==> cache.None? && env.parse(g.content).Some? && GeometrySourceOf(env.parse(g.content).value).FromGazetteer?
  {
    match env.parse(g.content)
    case None => GeoResult(false, g, cache)
    case Some(doc) =>
      var g1 := g.(unlocode := UnLoCodeAfter(g.unlocode, Text(doc, CoverageUnLoCodePath)));
      match GeometrySourceOf(doc)
      case Embedded(wkt) =>
        (match env.toGeoJson(wkt)
         case None => GeoResult(false, g1, cache)
         case Some(json) => GeoResult(true, g1.(geometry := Some(json)), cache))
      case FromGazetteer(code) => MapUnLoCode(g1, code, cache, env)
      case NoGeometry => GeoResult(true, g1, cache)
  }

  /** A non-empty embedded WKT decides the geometry: the gazetteer is neither loaded nor consulted, and the document text is kept. */
  lemma EmbeddedWktWins(g: GeoState, cache: Option<map<string, Entry>>, other: Option<map<string, Entry>>, env: Collaborators)
    requires env.parse(g.content).Some? && Text(env.parse(g.content).value, GeometryReadPath) != ""
    ensures var r := ResolveGeometry(g, cache, env);
      && r.cache == cache && r.geo.content == g.content
      && r.ok == env.toGeoJson(Text(env.parse(g.content).value, GeometryReadPath)).Some?
      && (r.ok ==> r.geo.geometry == env.toGeoJson(Text(env.parse(g.content).value, GeometryReadPath)))
      && r.ok == ResolveGeometry(g, other, env).ok && r.geo == ResolveGeometry(g, other, env).geo
  {
  }

  /** Without embedded WKT and without a coverage unlocode the geometry phase changes only the unlocode, and succeeds. */
  lemma NoCoverageKeepsGeometry(g: GeoState, cache: Option<map<string, Entry>>, env: Collaborators)
    requires env.parse(g.content).Some?
    requires Text(env.parse(g.content).value, GeometryReadPath) == "" && Text(env.parse(g.content).value, CoverageUnLoCodePath) == ""
    ensures ResolveGeometry(g, cache, env) == GeoResult(true, g, cache)
  {
  }

  /** Whatever the source of the geometry, a non-empty coverage unlocode becomes the instance's unlocode. */
  lemma CoverageUnLoCodeIsKept(g: GeoState, cache: Option<map<string, Entry>>, env: Collaborators)
    requires env.parse(g.content).Some?
    ensures ResolveGeometry(g, cache, env).geo.unlocode == UnLoCodeAfter(g.unlocode, Text(env.parse(g.content).value, CoverageUnLoCodePath))
  {
  }

  /** Once the cache holds a table, no geometry step ever replaces it. */
  lemma LoadedAtMostOnce(g: GeoState, table: map<string, Entry>, env: Collaborators)
    ensures ResolveGeometry(g, Some(table), env).cache == Some(table)
  {
  }

  /**
    A gazetteer hit sets the geometry from the entry's longitude-first point
    and writes that point into the document text at the rewrite path (the
    text stays as it was when the rewrite fails); a miss leaves geometry and
    document text as they were.
   */
  lemma GazetteerFallback(g: GeoState, table: map<string, Entry>, env: Collaborators)
    requires env.parse(g.content).Some?
    requires GeometrySourceOf(env.parse(g.content).value).FromGazetteer?
    ensures var code := Text(env.parse(g.content).value, CoverageUnLoCodePath);
      var r := ResolveGeometry(g, Some(table), env);
      && r.ok
      && (code !in table ==> r.geo.geometry == g.geometry && r.geo.content == g.content)
      && (code in table && env.toGeoJson(PointOf(table[code])).Some? ==>
            && r.geo.geometry == env.toGeoJson(PointOf(table[code]))
            && r.geo.content == (match env.updateXmlNode(PointOf(table[code]), g.content, GeometryRewritePath)
                                 case Some(xml) => xml
                                 case None => g.content)
            && ParsePointWkt(PointOf(table[code])) == Some(XY(table[code].longitude, table[code].latitude)))
  {
    var code := Text(env.parse(g.content).value, CoverageUnLoCodePath);
    if code in table {
      PointOfIsLongitudeFirst(table[code]);
    }
  }

  /**
    A dataset that cannot be read fails the first lookup and leaves an empty
    table behind, so every later lookup finds nothing and never retries.
   */
  lemma FailedLoadIsNeverRetried(g: GeoState, code: string, later: GeoState, laterCode: string, env: Collaborators)
    requires env.unLoCodeResource.None?
    ensures MapUnLoCode(g, code, None, env) == GeoResult(false, g, Some(map[]))
    ensures MapUnLoCode(later, laterCode, Some(map[]), env) == GeoResult(true, later, Some(map[]))
  {
  }

  /** The part of an instance the design linkage writes. */
  datatype LinkageState = LinkageState(designs: set<Design>, designId: string, specificationId: string)

  /**
    The linkage after resolution: a found design joins the set; when the set
    is non-empty the design id is that of one of its members, and the
    specification id that of one of that member's specifications if it has
    any; otherwise the ids stay as they were.
   */
  predicate LinkedFrom(before: LinkageState, found: Lookup, after: LinkageState) {
    && after.designs == before.designs + (if found.Found? then {found.design} else {})
    && (after.designs == {} ==> after.designId == before.designId && after.specificationId == before.specificationId)
    && (after.designs != {} ==>
          exists d :: d in after.designs && after.designId == d.designId
            && (d.specifications == {} ==> after.specificationId == before.specificationId)
            && (d.specifications != {} ==> exists s :: s in d.specifications && after.specificationId == s.specificationId))
  }

  /** A found design is linked and supplies the instance's design id when it is the only linked design. */
  lemma OnlyDesignDecides(before: LinkageState, d: Design, after: LinkageState)
    requires before.designs == {} && LinkedFrom(before, Found(d), after)
    ensures after.designs == {d} && after.designId == d.designId
  {
  }

  /** Why the structural phase fails: schema violation, a document that does not parse, or a failing design lookup. */
  predicate StructureFails(content: string, env: Collaborators) {
    || !env.validateXml(content, InstanceSchema)
    || env.parse(content).None?
    || env.findByDomainId(DesignReference(env.parse(content).value).designId, DesignReference(env.parse(content).value).version).LookupFailed?
  }

  datatype Outcome = Prepared | XmlValidationFailed | GeometryParseFailed

  /** The state of a service instance that save preparation reads and writes. */
  class Instance {
    var name: string
    var version: string
    var instanceId: string
    var keywords: string
    var status: string
    var comment: string
    var endpointUri: string
    var mmsi: string
    var imo: string
    var serviceType: string
    var unlocode: string
    var geometry: Option<GeoJson>
    /** The text of the instance's XML document. */
    var xmlContent: string
    var designs: set<Design>
    var designId: string
    var specificationId: string

    function Attributes(): AttributeValues
      reads this`name, this`version, this`instanceId, this`keywords, this`status, this`comment,
        this`endpointUri, this`mmsi, this`imo, this`serviceType
    {
      AttributeValues(name, version, instanceId, keywords, status, comment, endpointUri, mmsi, imo, serviceType)
    }

    function Geo(): GeoState
      reads this`unlocode, this`geometry, this`xmlContent
    {
      GeoState(unlocode, geometry, xmlContent)
    }

    function Linkage(): LinkageState
      reads this`designs, this`designId, this`specificationId
    {
      LinkageState(designs, designId, specificationId)
    }

    /** Assigns the ten searchable attributes. */
    method SetAttributes(a: AttributeValues)
      modifies this`name, this`version, this`instanceId, this`keywords, this`status, this`comment,
        this`endpointUri, this`mmsi, this`imo, this`serviceType
      ensures Attributes() == a
    {
      name, version, instanceId, keywords, status := a.name, a.version, a.instanceId, a.keywords, a.status;
      comment, endpointUri, mmsi, imo, serviceType := a.comment, a.endpointUri, a.mmsi, a.imo, a.serviceType;
    }
  }

  /** The helper, holding the process-wide gazetteer cache (None until the first load). */
  class InstanceUtil {
    var unLoCodeMap: Option<map<string, Entry>>

    constructor ()
      ensures unLoCodeMap.None?
    {
      unLoCodeMap := None;
    }

    /**
      Sets the ten attributes from the document and the unlocode from its
      instance-level element when that is non-empty; fails, changing nothing,
      when the document does not parse.
     */
    static method ParseInstanceAttributesFromXML(inst: Instance, env: Collaborators) returns (ok: bool)
      modifies inst`name, inst`version, inst`instanceId, inst`keywords, inst`status, inst`comment,
        inst`endpointUri, inst`mmsi, inst`imo, inst`serviceType, inst`unlocode
      ensures ok <==> env.parse(inst.xmlContent).Some?
      ensures !ok ==> inst.Attributes() == old(inst.Attributes()) && inst.unlocode == old(inst.unlocode)
      ensures ok ==> inst.Attributes() == ReadAttributes(env.parse(inst.xmlContent).value)
      ensures ok ==> inst.unlocode == UnLoCodeAfter(old(inst.unlocode), Text(env.parse(inst.xmlContent).value, InstanceUnLoCodePath))
    {
      var parsed := env.parse(inst.xmlContent);
      if parsed.None? {
        return false;
      }
      var doc := parsed.value;
      inst.SetAttributes(ReadAttributes(doc));
      var code := Text(doc, InstanceUnLoCodePath);
      if |code| > 0 {
        inst.unlocode := code;
      }
      return true;
    }

    /** The implemented design's id and version, "" where absent; None when the document does not parse. */
    static function ParseInstanceDesignImplementationFromXML(inst: Instance, env: Collaborators): (r: Option<DesignImplementation>)
      reads inst
      ensures r.Some? <==> env.parse(inst.xmlContent).Some?
      ensures r.Some? ==> r.value.designId == Text(env.parse(inst.xmlContent).value, DesignIdPath)
      ensures r.Some? ==> r.value.version == Text(env.parse(inst.xmlContent).value, DesignVersionPath)
    {
      match env.parse(inst.xmlContent)
      case None => None
      case Some(doc) => Some(DesignReference(doc))
    }

    /** Fills the cache from the dataset; the cache is an empty table before the dataset is read, and stays so when it cannot be. */
    method LoadUnLoCodeMapping(source: Option<seq<Record>>) returns (ok: bool)
      modifies this`unLoCodeMap
      ensures ok <==> source.Some?
      ensures unLoCodeMap == Some(LoadedTable(source))
    {
      unLoCodeMap := Some(map[]);
      if source.None? {
        return false;
      }
      var records := source.value;
      var i := 0;
      while i < |records|
        invariant 0 <= i <= |records|
        invariant unLoCodeMap == Some(BuildTable(records[..i]))
      {
        var contribution := DecodeRecord(records[i]);
        if contribution.Some? {
          unLoCodeMap := Some(unLoCodeMap.value[contribution.value.0 := contribution.value.1]);
        }
        BuildTableStep(records, i);
        i := i + 1;
      }
      assert records[..i] == records;
      return true;
    }

    /** Looks the code up in the loaded table and places its entry on the instance. */
    method ApplyUnLoCodeMapping(inst: Instance, code: string, env: Collaborators)
      requires unLoCodeMap.Some?
      modifies inst`geometry, inst`xmlContent
      ensures inst.Geo() == ApplyEntry(Find(unLoCodeMap.value, code), old(inst.Geo()), env)
    {
      var e := Find(unLoCodeMap.value, code);
      if e.Some? {
        var pointWkt := PointOf(e.value);
        var pointJson := env.toGeoJson(pointWkt);
        if pointJson.Some? {
          inst.geometry := pointJson;
          var resultXml := env.updateXmlNode(pointWkt, inst.xmlContent, GeometryRewritePath);
          if resultXml.Some? {
            inst.xmlContent := resultXml.value;
          }
        }
      }
    }

    /** Loads the table on first use only, then applies the code. */
    method MapUnLoCodeToLocation(inst: Instance, code: string, env: Collaborators) returns (ok: bool)
      modifies this`unLoCodeMap, inst`geometry, inst`xmlContent
      ensures GeoResult(ok, inst.Geo(), unLoCodeMap) == MapUnLoCode(old(inst.Geo()), code, old(unLoCodeMap), env)
    {
      if unLoCodeMap.None? {
        ok := LoadUnLoCodeMapping(env.unLoCodeResource);
        if !ok {
          return;
        }
      }
      ApplyUnLoCodeMapping(inst, code, env);
      ok := true;
    }

    /** The geometry phase on the instance; see `ResolveGeometry`. */
    method ParseInstanceGeometryFromXML(inst: Instance, env: Collaborators) returns (ok: bool)
      modifies this`unLoCodeMap, inst`unlocode, inst`geometry, inst`xmlContent
      ensures GeoResult(ok, inst.Geo(), unLoCodeMap) == ResolveGeometry(old(inst.Geo()), old(unLoCodeMap), env)
    {
      var parsed := env.parse(inst.xmlContent);
      if parsed.None? {
        return false;
      }
      var doc := parsed.value;
      var code := Text(doc, CoverageUnLoCodePath);
      var wkt := Text(doc, GeometryReadPath);
      if |code| > 0 {
        inst.unlocode := code;
      }
      if |wkt| > 0 {
        var json := env.toGeoJson(wkt);
        if json.None? {
          return false;
        }
        inst.geometry := json;
      } else if |code| > 0 {
        ok := MapUnLoCodeToLocation(inst, code, env);
        return;
      }
      return true;
    }

    /**
      The linkage step of phase one: a found design joins the set, and one
      member of a non-empty set supplies the design id and, when it has
      specifications, the specification id.
     */
    static method LinkDesign(inst: Instance, found: Lookup)
      modifies inst`designs, inst`designId, inst`specificationId
      ensures LinkedFrom(old(inst.Linkage()), found, inst.Linkage())
    {
      if found.Found? {
        // The source first replaces an empty set by a new empty set; as a value that changes nothing.
        inst.designs := inst.designs + {found.design};
      }
      if inst.designs != {} {
        var design :| design in inst.designs;
        inst.designId := design.designId;
        if design.specifications != {} {
          var specification :| specification in design.specifications;
          inst.specificationId := specification.specificationId;
        }
      }
    }

    /**
      Phase one: schema validation, attribute extraction and design linkage.
      It fails exactly when `StructureFails`; the attributes are assigned as
      soon as the document passes the schema and parses, even when the design
      lookup fails afterwards.
     */
    static method PrepareStructure(inst: Instance, env: Collaborators) returns (ok: bool)
      modifies inst`name, inst`version, inst`instanceId, inst`keywords, inst`status, inst`comment,
        inst`endpointUri, inst`mmsi, inst`imo, inst`serviceType, inst`unlocode,
        inst`designs, inst`designId, inst`specificationId
      ensures ok <==> !StructureFails(inst.xmlContent, env)
      ensures !ok ==> inst.Linkage() == old(inst.Linkage())
      ensures !env.validateXml(inst.xmlContent, InstanceSchema) || env.parse(inst.xmlContent).None? ==>
        inst.Attributes() == old(inst.Attributes()) && inst.unlocode == old(inst.unlocode)
      ensures env.validateXml(inst.xmlContent, InstanceSchema) && env.parse(inst.xmlContent).Some? ==>
        && inst.Attributes() == ReadAttributes(env.parse(inst.xmlContent).value)
        && inst.unlocode == UnLoCodeAfter(old(inst.unlocode), Text(env.parse(inst.xmlContent).value, InstanceUnLoCodePath))
      ensures ok ==>
        var reference := DesignReference(env.parse(inst.xmlContent).value);
        LinkedFrom(old(inst.Linkage()), env.findByDomainId(reference.designId, reference.version), inst.Linkage())
    {
      var xml := inst.xmlContent;
      if !env.validateXml(xml, InstanceSchema) {
        return false;
      }
      var parsed := ParseInstanceAttributesFromXML(inst, env);
      if !parsed {
        return false;
      }
      var document := ParseInstanceDesignImplementationFromXML(inst, env);
      assert document.Some?;
      var found := env.findByDomainId(document.value.designId, document.value.version);
      if found.LookupFailed? {
        return false;
      }
      LinkDesign(inst, found);
      return true;
    }

    /**
      Two-phase preparation. Phase one (`PrepareStructure`) failing is an
      `XmlValidationFailed`, and the geometry phase is not reached. Phase two
      derives the geometry; its failure is a `GeometryParseFailed`, with
      phase one's results already applied. A null instance is left alone.
     */
    method PrepareInstanceForSave(inst: Instance?, env: Collaborators) returns (outcome: Outcome)
      modifies this`unLoCodeMap, inst
      ensures inst == null ==> outcome == Prepared && unLoCodeMap == old(unLoCodeMap)
      ensures inst != null ==> (outcome == XmlValidationFailed <==> StructureFails(old(inst.xmlContent), env))
      ensures inst != null && outcome == XmlValidationFailed ==>
        unLoCodeMap == old(unLoCodeMap) && inst.geometry == old(inst.geometry) && inst.xmlContent == old(inst.xmlContent)
        && inst.Linkage() == old(inst.Linkage())
      ensures inst != null && (!env.validateXml(old(inst.xmlContent), InstanceSchema) || env.parse(old(inst.xmlContent)).None?) ==>
        inst.Attributes() == old(inst.Attributes()) && inst.unlocode == old(inst.unlocode)
      ensures inst != null && env.validateXml(old(inst.xmlContent), InstanceSchema) && env.parse(old(inst.xmlContent)).Some? ==>
        inst.Attributes() == ReadAttributes(env.parse(old(inst.xmlContent)).value)
      ensures inst != null && outcome == XmlValidationFailed && env.validateXml(old(inst.xmlContent), InstanceSchema) && env.parse(old(inst.xmlContent)).Some? ==>
        inst.unlocode == UnLoCodeAfter(old(inst.unlocode), Text(env.parse(old(inst.xmlContent)).value, InstanceUnLoCodePath))
      ensures inst != null && outcome != XmlValidationFailed ==>
        var doc := env.parse(old(inst.xmlContent)).value;
        var reference := DesignReference(doc);
        && LinkedFrom(old(inst.Linkage()), env.findByDomainId(reference.designId, reference.version), inst.Linkage())
        && var r := ResolveGeometry(old(inst.Geo()).(unlocode := UnLoCodeAfter(old(inst.unlocode), Text(doc, InstanceUnLoCodePath))), old(unLoCodeMap), env);
           && (outcome == Prepared <==> r.ok) && inst.Geo() == r.geo && unLoCodeMap == r.cache
    {
      if inst == null {
        return Prepared;
      }
      var structured := PrepareStructure(inst, env);
      if !structured {
        return XmlValidationFailed;
      }
      ghost var attributes := inst.Attributes();
      var ok := ParseInstanceGeometryFromXML(inst, env);
      assert inst.Attributes() == attributes;
      outcome := if ok then Prepared else GeometryParseFailed;
    }
  }
}
