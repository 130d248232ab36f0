# Service-instance preparation and authorisation (MaritimeCloud Service Registry)

This is a Dafny model of `InstanceUtil`, the helper the service registry calls before it stores a service instance and before it lets a caller change one. It covers:

- **Attribute extraction.** The ten searchable attributes, from name through serviceType, are read from fixed element paths of the instance's XML document. An absent element reads as `""`. A non-empty instance-level `unLoCode` becomes the instance's unlocode.
- **Design linkage.** The `implementsServiceDesign` id and version are read, and the design repository is asked for that design. A found design joins the instance's design set. One member of the set supplies `designId`, and one of that member's specifications supplies `specificationId`.
- **The UN/LOCODE gazetteer.**
  - A bundled dataset of records (`Country`, `Location`, `Coordinates`, `Status`) is turned into a table keyed by country + location.
  - The packed coordinate text `"DDMMh DDDMMh"` is decoded as DD.MM and DDD.MM degrees, negated for `S` and `W`. This sign is the intended reading, and the table, the point text and their lemmas use it; the shipped loader compares the hemisphere letters by reference and stores the absolute values (see "## Findings"). Values are kept exactly, in integer hundredths.
  - A record with a missing field or with coordinates that do not decode is skipped. A later record with the same key overwrites an earlier one.
  - The table is a process-wide cache, loaded lazily on first use.
- **Geometry resolution.**
  - An embedded `geometryAsWKT` takes precedence.
  - Otherwise the coverage-area `unLoCode` is looked up in the gazetteer. A hit produces the point text `"POINT (<lon> <lat>)"`, longitude first, in `Double.toString` digits. That point becomes the instance's geometry and is written into the document.
  - A non-empty coverage-area `unLoCode` always becomes the instance's unlocode.
- **Two-phase preparation.**
  - A null instance is a no-op.
  - Phase one covers schema validation, attribute extraction and design linkage. Any failure there is reported as `XmlValidationFailed`, and phase two is not reached.
  - Phase two is geometry resolution. Its failure is reported as `GeometryParseFailed`, and phase one's results stay applied.
- **Authorisation.**
  - `checkRolePermissions` decides whether a caller may change an entity, from the claims of its bearer token: its organisation, roles and act-on-behalf-of list.
  - A claim whose decoding fails degrades to `""` or to an empty list.
  - `checkOrganizationId` is the plain ownership check.

Layout:

- `options.dfy`: `Option`.
- `java_text.dfy`: the `java.lang.String` operations the loader relies on, namely `trim`, `split("\\s")` and decimal numerals, plus an `indexOf` used only to read the point text back.
- `coordinates.dfy`: coordinate decoding, its inverse, and the point text.
- `gazetteer.dfy`: records and the table built from them.
- `authorization.dfy`: the two authorisation decisions.
- `instances.dfy`:
  - the `Instance` state, as a class;
  - the helper `InstanceUtil`, as a class holding the cache (the source's static `UnLoCodeMap`);
  - the specification functions of each phase, and the lemmas about them.

The collaborators are passed in as one `Collaborators` value of functions:

- the XML parser, which gives a map from element path to text;
- the schema validator;
- the WKT-to-GeoJSON converter;
- the XML node rewriter;
- the design repository;
- the bundled dataset.

Logging is not modelled.

Points where the code behaves differently from what a reader might expect:

- **Design lookup.** The repository is asked even when the referenced id or version is empty, and the `document != null` test that follows always holds (InstanceUtil.java:310-312). `StructureFails` and `PrepareStructure` follow the code.
- **Two unlocode extractions.** The instance-level unlocode (line 91) and the coverage-area unlocode (line 150) are written to the same field. The coverage-area value overwrites the instance-level one whenever it is non-empty. `ResolveGeometry` and `PrepareInstanceForSave` follow the code.
- **Point text.** The point is built by concatenating `double`s, so an entry at latitude 10, longitude 20 gives `POINT (20.0 10.0)` (line 209); see `Coordinates.PointWktExample`.
- **Longitude minutes.** The longitude minutes are the two characters `substring(3, 5)` of the second token (line 258), and `Coordinates.DecodeParts` reads the same two.
- **A failed dataset read.** The static table is replaced by an empty map before the read (line 231). A failed read therefore fails that one call, and leaves an empty table that later calls use without retrying. `Instances.FailedLoadIsNeverRetried` states this.
- **Sentinel check.** The test `latitude != -99999` (line 269) can only fail for records whose coordinates are absent or blank. The sentinel is -99999 degrees, which is -9999900 in the model's hundredths, and every decoded value lies within -999.99 to 999.99 (`Gazetteer.BuildTableInRange`), so it is never the sentinel. `Gazetteer.DecodeRecord` therefore skips exactly the records that throw or carry no coordinates.

## Model

| member | source | states |
|---|---|---|
| JavaText.LeadingTrimmed | src/main/java/com/frequentis/maritime/mcsr/web/rest/util/InstanceUtil.java:247 | the number of leading characters at or below U+0020: all of those are, and the next one is not |
| JavaText.Trim | src/main/java/com/frequentis/maritime/mcsr/web/rest/util/InstanceUtil.java:247 | `String.trim`: the result is the infix of the input that starts after the leading run; every dropped character, at either end, is at or below U+0020; neither end of the result is; a string already in that form is returned unchanged |
| JavaText.SplitOnSpaces | src/main/java/com/frequentis/maritime/mcsr/web/rest/util/InstanceUtil.java:249 | splitting at every `\s` character: one more piece than separators, no piece holds a separator, and the pieces interleaved with the separators give back the input |
| JavaText.JavaSplit | src/main/java/com/frequentis/maritime/mcsr/web/rest/util/InstanceUtil.java:249 | `split("\\s")`: a text without separators is one piece, itself; otherwise the pieces are those of `SplitOnSpaces` with the trailing empty pieces removed, and the last piece is non-empty |
| JavaText.SplitLeadingWords | src/main/java/com/frequentis/maritime/mcsr/web/rest/util/InstanceUtil.java:249 | a word, one `\s` character, a non-empty word and then nothing or a `\s` character split into at least two pieces, the first two being the two words |
| JavaText.SplitTwoWords | src/main/java/com/frequentis/maritime/mcsr/web/rest/util/InstanceUtil.java:249 | two separator-free words joined by one `\s` character split into exactly those two words |
| JavaText.NatToString | src/main/java/com/frequentis/maritime/mcsr/web/rest/util/InstanceUtil.java:209 | the decimal numeral of `n`: non-empty, all digits, no leading zero, and reads back as `n` |
| JavaText.Padded | src/main/java/com/frequentis/maritime/mcsr/web/rest/util/InstanceUtil.java:250-258 | a zero-padded numeral of exactly the fixed width the coordinate layout uses, reading back as the number |
| Coordinates.ParseHundredths | src/main/java/com/frequentis/maritime/mcsr/web/rest/util/InstanceUtil.java:253 | `parseDouble(degrees + "." + minutes)` succeeds exactly when both parts are numerals, and is then degrees * 100 + minutes hundredths |
| Coordinates.DecodeParts | src/main/java/com/frequentis/maritime/mcsr/web/rest/util/InstanceUtil.java:249-260 | the latitude is at most 99.99 and the longitude at most 999.99 |
| Coordinates.DecodePartsOfWords | src/main/java/com/frequentis/maritime/mcsr/web/rest/util/InstanceUtil.java:249-260 | for any first token of at least 5 characters and second of at least 6, separated by any `\s` character and followed by nothing or something starting with one: the fields are characters 0-2, 2-4, 4 of the first token and 0-3, 3-5, 5 of the second, and the text decodes exactly when both numbers parse |
| Coordinates.DecodePartsOneWord | src/main/java/com/frequentis/maritime/mcsr/web/rest/util/InstanceUtil.java:249-252 | a text without a separator is one piece and is rejected |
| Coordinates.DecodePartsShortToken | src/main/java/com/frequentis/maritime/mcsr/web/rest/util/InstanceUtil.java:250-258 | a first token shorter than 5 or a non-empty second token shorter than 6 characters is rejected |
| Coordinates.DecodePartsEmptySecond | src/main/java/com/frequentis/maritime/mcsr/web/rest/util/InstanceUtil.java:249-257 | two adjacent separators after the first token leave an empty second piece, and the text is rejected |
| Coordinates.DecodeCoordinates | src/main/java/com/frequentis/maritime/mcsr/web/rest/util/InstanceUtil.java:245-263 | decodes exactly when the trimmed text is non-empty and its fields parse; the result is in range, each ordinate has its field as magnitude, and is negative exactly when it is non-zero and its hemisphere letter is S (latitude) or W (longitude) |
| Coordinates.DecodeCoordinatesAsWritten | src/main/java/com/frequentis/maritime/mcsr/web/rest/util/InstanceUtil.java:254-262 | the reference comparison as written: decodes the same texts, and each ordinate is the absolute value of the intended one, so never negative |
| Coordinates.DecodeEncode | src/main/java/com/frequentis/maritime/mcsr/web/rest/util/InstanceUtil.java:245-263 | every in-range position, written in the `DDMMh DDDMMh` layout, decodes back to itself, signs included |
| Coordinates.AsWrittenDropsHemisphere | src/main/java/com/frequentis/maritime/mcsr/web/rest/util/InstanceUtil.java:254-262 | the code as written decodes every such text to the absolute values |
| Coordinates.SouthWestExample | src/main/java/com/frequentis/maritime/mcsr/web/rest/util/InstanceUtil.java:254-262 | "4230S 00115W" is (-42.30, -1.15) as intended and (42.30, 1.15) as written |
| Coordinates.NorthEastExample | src/main/java/com/frequentis/maritime/mcsr/web/rest/util/InstanceUtil.java:245-263 | "4230N 00115E" is (42.30, 1.15) |
| Coordinates.FractionText | src/main/java/com/frequentis/maritime/mcsr/web/rest/util/InstanceUtil.java:209 | the fraction digits `Double.toString` writes for a whole number of hundredths (with `FractionTextRoundTrip`: one or two digits that read back as the hundredths) |
| Coordinates.MagnitudeText | src/main/java/com/frequentis/maritime/mcsr/web/rest/util/InstanceUtil.java:209 | the `Double.toString` text of a non-negative number of hundredths (with `MagnitudeTextRoundTrip`) |
| Coordinates.MagnitudeTextRoundTrip | src/main/java/com/frequentis/maritime/mcsr/web/rest/util/InstanceUtil.java:209 | the `Double.toString` text of a non-negative value reads back as that value |
| Coordinates.DegreesText | src/main/java/com/frequentis/maritime/mcsr/web/rest/util/InstanceUtil.java:209 | the signed text of a number of hundredths (with `DegreesTextRoundTrip`) |
| Coordinates.DegreesTextRoundTrip | src/main/java/com/frequentis/maritime/mcsr/web/rest/util/InstanceUtil.java:209 | the text of a signed value reads back as that value and holds no space |
| Coordinates.PointWkt | src/main/java/com/frequentis/maritime/mcsr/web/rest/util/InstanceUtil.java:209 | the point text of an entry, longitude first (with `PointWktRoundTrip`, `PointWktExample` and `SouthWestPointExample`) |
| Coordinates.PointWktRoundTrip | src/main/java/com/frequentis/maritime/mcsr/web/rest/util/InstanceUtil.java:209 | `"POINT (" + lon + " " + lat + ")"` reads back with x = lon and y = lat |
| Coordinates.PointWktExample | src/main/java/com/frequentis/maritime/mcsr/web/rest/util/InstanceUtil.java:209 | latitude 10, longitude 20 is written "POINT (20.0 10.0)" |
| Coordinates.SouthWestPointExample | src/main/java/com/frequentis/maritime/mcsr/web/rest/util/InstanceUtil.java:209 | latitude -42.30, longitude -1.15 is written "POINT (-1.15 -42.3)" |
| Gazetteer.DecodeRecord | src/main/java/com/frequentis/maritime/mcsr/web/rest/util/InstanceUtil.java:237-271 | a record is stored exactly when all four fields are present and its coordinates decode, under country + location, with its status and the decoded latitude and longitude, in range |
| Gazetteer.Contributions | src/main/java/com/frequentis/maritime/mcsr/web/rest/util/InstanceUtil.java:237-271 | one decoded contribution per record, in dataset order |
| Gazetteer.BuildTableStep | src/main/java/com/frequentis/maritime/mcsr/web/rest/util/InstanceUtil.java:237-275 | one loop iteration: a skipped record leaves the table, a stored one is `put` over it |
| Gazetteer.PutAll | src/main/java/com/frequentis/maritime/mcsr/web/rest/util/InstanceUtil.java:269-274 | the loop body over decoded contributions, in order (with `PutAllSnoc`, `PutAllKeys`, `PutAllLastWins`, `PutAllSkipsNone`) |
| Gazetteer.BuildTable | src/main/java/com/frequentis/maritime/mcsr/web/rest/util/InstanceUtil.java:237-275 | the table the loop leaves for a readable dataset (with `BuildTableStep`, `BuildTableKeys`, `BuildTableLastWins`, `BuildTableInRange`) |
| Gazetteer.LoadedTable | src/main/java/com/frequentis/maritime/mcsr/web/rest/util/InstanceUtil.java:231-276 | the static table after loading: empty (set at line 231) when the dataset cannot be read, else `BuildTable` of its records (with `Instances.FailedLoadIsNeverRetried` and `LoadUnLoCodeMapping`) |
| Gazetteer.PutAllSnoc | src/main/java/com/frequentis/maritime/mcsr/web/rest/util/InstanceUtil.java:269-271 | putting one more contribution is a map update, or nothing for a skipped record |
| Gazetteer.PutAllKeys | src/main/java/com/frequentis/maritime/mcsr/web/rest/util/InstanceUtil.java:269-271 | a key is in the table exactly when some contribution is stored under it |
| Gazetteer.PutAllLastWins | src/main/java/com/frequentis/maritime/mcsr/web/rest/util/InstanceUtil.java:269-271 | the value under a key is that of the last contribution with that key |
| Gazetteer.PutAllSkipsNone | src/main/java/com/frequentis/maritime/mcsr/web/rest/util/InstanceUtil.java:272-274 | a skipped contribution anywhere in the sequence does not change the table |
| Gazetteer.BuildTableKeys | src/main/java/com/frequentis/maritime/mcsr/web/rest/util/InstanceUtil.java:237-275 | a code is in the table exactly when some record of the dataset is stored under it |
| Gazetteer.BuildTableLastWins | src/main/java/com/frequentis/maritime/mcsr/web/rest/util/InstanceUtil.java:270 | later duplicates overwrite earlier ones: the entry is that of the last record with the key |
| Gazetteer.SkippedRecordIsInvisible | src/main/java/com/frequentis/maritime/mcsr/web/rest/util/InstanceUtil.java:272-274 | a bad record is logged and skipped: removing it leaves the table unchanged |
| Gazetteer.BuildTableInRange | src/main/java/com/frequentis/maritime/mcsr/web/rest/util/InstanceUtil.java:243-270 | every entry is in range (at most 999.99 in magnitude), so never equal to the sentinel -99999 degrees (-9999900 hundredths) |
| Gazetteer.LastStored | src/main/java/com/frequentis/maritime/mcsr/web/rest/util/InstanceUtil.java:270 | the last record stored under a key exists once any is |
| Authorization.CheckRolePermissions | src/main/java/com/frequentis/maritime/mcsr/web/rest/util/InstanceUtil.java:351-389 | allowed exactly when an admin role is held and the owner is null or empty, or equals the caller's organisation, or is acted on behalf of, or the caller is service admin; undecodable roles deny |
| Authorization.CheckOrganizationId | src/main/java/com/frequentis/maritime/mcsr/web/rest/util/InstanceUtil.java:278-284 | false exactly when both ids are non-null, the instance's is non-empty, and they differ |
| Authorization.OwnerAdminIsAllowed | src/main/java/com/frequentis/maritime/mcsr/web/rest/util/InstanceUtil.java:371-387 | an admin of the owning organisation is always allowed |
| Authorization.NoDelegationMeansOwnership | src/main/java/com/frequentis/maritime/mcsr/web/rest/util/InstanceUtil.java:376-386 | without delegation and service admin, the decision is "admin role and same owner" |
| Authorization.MoreClaimsNeverRevoke | src/main/java/com/frequentis/maritime/mcsr/web/rest/util/InstanceUtil.java:371-386 | more roles or more delegations never turn an allow into a deny |
| Authorization.UndecodedOrganizationIsEmpty | src/main/java/com/frequentis/maritime/mcsr/web/rest/util/InstanceUtil.java:352-359 | an undecodable organisation claim acts as "" |
| Authorization.Examples | src/main/java/com/frequentis/maritime/mcsr/web/rest/util/InstanceUtil.java:351-389 | sample decisions: owner admin, no role, service admin, delegation, unowned entity, foreign entity admin |
| Instances.RewriteMissesReadPath | src/main/java/com/frequentis/maritime/mcsr/web/rest/util/InstanceUtil.java:146-216 | the rewrite path (`coversArea/coversArea`) differs from the read path (`coversAreas/coversArea`) |
| Instances.Text | src/main/java/com/frequentis/maritime/mcsr/web/rest/util/InstanceUtil.java:78-87 | an XPath string value: the element's text, or "" when the element is absent (with `AbsentAttributesAreEmpty`) |
| Instances.ReadAttributes | src/main/java/com/frequentis/maritime/mcsr/web/rest/util/InstanceUtil.java:78-87 | the ten attributes, each read from its own element path (with `AbsentAttributesAreEmpty` and `ParseInstanceAttributesFromXML`) |
| Instances.AbsentAttributesAreEmpty | src/main/java/com/frequentis/maritime/mcsr/web/rest/util/InstanceUtil.java:78-87 | absent elements give "" for every attribute |
| Instances.UnLoCodeAfter | src/main/java/com/frequentis/maritime/mcsr/web/rest/util/InstanceUtil.java:89-92 | a non-empty extracted code replaces the unlocode, an empty one leaves it |
| Instances.UnLoCodeAfterIdempotent | src/main/java/com/frequentis/maritime/mcsr/web/rest/util/InstanceUtil.java:89-92 | extracting the same code again changes nothing |
| Instances.GeometrySourceOf | src/main/java/com/frequentis/maritime/mcsr/web/rest/util/InstanceUtil.java:145-158 | WKT when non-empty, else the coverage code when non-empty, else nothing |
| Instances.PointOfIsLongitudeFirst | src/main/java/com/frequentis/maritime/mcsr/web/rest/util/InstanceUtil.java:209 | an entry's point text reads back as x = longitude, y = latitude |
| Instances.GazetteerPointFollowsRecord | src/main/java/com/frequentis/maritime/mcsr/web/rest/util/InstanceUtil.java:205-212 | the point placed for a code carries the coordinates decoded from the last record with that code, longitude first |
| Instances.Find | src/main/java/com/frequentis/maritime/mcsr/web/rest/util/InstanceUtil.java:205 | `get` is the table's entry when the code is a key, null otherwise |
| Instances.ApplyEntry | src/main/java/com/frequentis/maritime/mcsr/web/rest/util/InstanceUtil.java:204-223 | a miss, or a point the converter rejects, changes nothing; on a hit the geometry is the GeoJSON of the longitude-first point and the text is the rewritten document, or the old text when the rewrite fails; the unlocode is untouched |
| Instances.MapUnLoCode | src/main/java/com/frequentis/maritime/mcsr/web/rest/util/InstanceUtil.java:195-202 | a held table is never reloaded; an empty cache is loaded from the dataset, and an unreadable dataset fails with geometry unchanged |
| Instances.ResolveGeometry | src/main/java/com/frequentis/maritime/mcsr/web/rest/util/InstanceUtil.java:136-161 | an unparsable document fails with nothing changed; only the gazetteer path can change the document text or the cache, and the cache only when it was empty (with the lemmas below) |
| Instances.EmbeddedWktWins | src/main/java/com/frequentis/maritime/mcsr/web/rest/util/InstanceUtil.java:146-155 | with a non-empty WKT the gazetteer is neither loaded nor consulted and the geometry is the WKT's GeoJSON, or the step fails |
| Instances.NoCoverageKeepsGeometry | src/main/java/com/frequentis/maritime/mcsr/web/rest/util/InstanceUtil.java:145-158 | with neither WKT nor coverage code the step succeeds and changes nothing |
| Instances.CoverageUnLoCodeIsKept | src/main/java/com/frequentis/maritime/mcsr/web/rest/util/InstanceUtil.java:149-151 | a non-empty coverage code becomes the unlocode whatever the geometry source |
| Instances.LoadedAtMostOnce | src/main/java/com/frequentis/maritime/mcsr/web/rest/util/InstanceUtil.java:196-199 | once the cache holds a table, geometry resolution never replaces it |
| Instances.GazetteerFallback | src/main/java/com/frequentis/maritime/mcsr/web/rest/util/InstanceUtil.java:156-158 | a miss leaves geometry and text; a hit sets the geometry from the longitude-first point and rewrites the text at the rewrite path, keeping it when the rewrite fails |
| Instances.FailedLoadIsNeverRetried | src/main/java/com/frequentis/maritime/mcsr/web/rest/util/InstanceUtil.java:230-236 | an unreadable dataset fails the first load, and later lookups use the empty table without retrying |
| Instances.LinkedFrom | src/main/java/com/frequentis/maritime/mcsr/web/rest/util/InstanceUtil.java:311-334 | the linkage after a lookup: a found design joins the set; with a non-empty set the design id is some member's, and the specification id that of one of its specifications when it has any (with `OnlyDesignDecides` and `LinkDesign`) |
| Instances.StructureFails | src/main/java/com/frequentis/maritime/mcsr/web/rest/util/InstanceUtil.java:305-334 | the structural phase fails on a schema violation, an unparsable document or a failing lookup (with `PrepareStructure`) |
| Instances.OnlyDesignDecides | src/main/java/com/frequentis/maritime/mcsr/web/rest/util/InstanceUtil.java:312-326 | a found design linked to an instance without designs becomes its only design and gives the design id |
| Instances.Instance.SetAttributes | src/main/java/com/frequentis/maritime/mcsr/web/rest/util/InstanceUtil.java:78-87 | the ten attributes become the given values; nothing else changes |
| Instances.InstanceUtil.constructor | src/main/java/com/frequentis/maritime/mcsr/web/rest/util/InstanceUtil.java:56 | the cache starts out null |
| Instances.InstanceUtil.ParseInstanceAttributesFromXML | src/main/java/com/frequentis/maritime/mcsr/web/rest/util/InstanceUtil.java:69-94 | fails unchanged on a document that does not parse; otherwise every attribute is its element's text or "" and the unlocode follows `UnLoCodeAfter` |
| Instances.InstanceUtil.ParseInstanceDesignImplementationFromXML | src/main/java/com/frequentis/maritime/mcsr/web/rest/util/InstanceUtil.java:96-108 | the referenced design id and version, "" where absent |
| Instances.InstanceUtil.LoadUnLoCodeMapping | src/main/java/com/frequentis/maritime/mcsr/web/rest/util/InstanceUtil.java:230-276 | succeeds exactly when the dataset is readable; the cache is then the table of the records, else the empty table |
| Instances.InstanceUtil.ApplyUnLoCodeMapping | src/main/java/com/frequentis/maritime/mcsr/web/rest/util/InstanceUtil.java:204-223 | geometry and document text become `ApplyEntry` of the looked-up entry |
| Instances.InstanceUtil.MapUnLoCodeToLocation | src/main/java/com/frequentis/maritime/mcsr/web/rest/util/InstanceUtil.java:195-202 | outcome, instance and cache as `MapUnLoCode`: lazy load, then apply |
| Instances.InstanceUtil.ParseInstanceGeometryFromXML | src/main/java/com/frequentis/maritime/mcsr/web/rest/util/InstanceUtil.java:136-161 | outcome, instance and cache as `ResolveGeometry`, whose precedence and cache properties are the lemmas above |
| Instances.InstanceUtil.LinkDesign | src/main/java/com/frequentis/maritime/mcsr/web/rest/util/InstanceUtil.java:311-334 | the found design joins the set, and some member gives the design id and, when it has specifications, the specification id |
| Instances.InstanceUtil.PrepareStructure | src/main/java/com/frequentis/maritime/mcsr/web/rest/util/InstanceUtil.java:305-337 | fails exactly on a schema violation, an unparsable document or a failing lookup; on a schema violation or an unparsable document attributes and unlocode are untouched, once the document parses they are set; the linkage holds on success |
| Instances.InstanceUtil.PrepareInstanceForSave | src/main/java/com/frequentis/maritime/mcsr/web/rest/util/InstanceUtil.java:300-344 | null is a no-op; `XmlValidationFailed` exactly when phase one fails, and then geometry, text, cache and linkage are untouched, attributes and unlocode too unless the document validated and parsed, and after a failed lookup the unlocode is the instance-level extraction; otherwise the linkage holds and outcome, geometry and cache are those of `ResolveGeometry`, with phase one's results applied |

## Left out

- XML parsing and XPath evaluation, including the matching by local name. The parser is a collaborator that returns a map from element path to text.
- The schema validator (`XmlUtil.validateXml`) and the node rewrite (`XmlUtil.updateXmlNode`) are collaborators. `XmlUtil` is not part of this model.
- `convertWKTtoGeoJson`, which uses the JTS reader, the GeoJSON writer and Jackson, is one collaborator that may fail. GeoJSON is opaque text, and the null-geometry log line is not modelled.
- Reading `UnLoCodeLists.json` through the class loader and Jackson is I/O. The dataset is passed in as a sequence of records, or None when it cannot be read.
- Token decoding (`HeaderUtil`) and the design repository (`DesignService`) are collaborators. The decoded claims and the lookup answer are inputs. `HeaderUtil` and `DesignService` are not part of this model.
- Logging, and `Assert.notNull` on the design service: the repository is always present.
- Concurrent first use of the static cache. The cache is a sequential field of one helper object.
- Null references other than those modelled are not modelled. In the source some of them throw:
  - a null `Xml` object or content;
  - a null design set when a design was found (`isEmpty()`, line 314);
  - a null role list from the decoder (line 371);
  - a null organisation from the decoder when the entity's organisation id is non-null and non-empty (line 376).
- Null references the source skips are not modelled either. Skipping leaves `designId` and `specificationId` as they were (lines 323-329): a null design set when no design was found, a null design picked from the set, and a null specification set or specification.
- JSON fields that are present but are not strings. There `textValue()` gives null; the model's `None` stands only for an absent field.
- Design equality is structural, not the entity's own `equals`. The element `iterator().next()` picks is any member (`:|`), because hash-set order is not modelled.
- Coordinates.ParseHundredths: accepts digits only. `Double.parseDouble` also accepts a sign, an exponent, a `d`/`f` suffix and surrounding control characters, so a record such as `"-130N 00115E"` is stored by the source and skipped by the model.
- Coordinates.DegreesText: writes the integer-hundredths value. `Double.toString` would write `-0.0` for a negated zero (`"0000S"` in the corrected reading), and the model writes `0.0`.
- Coordinates.DecodeCoordinates: values are exact hundredths rather than binary doubles. Every value in range reads and prints back the same way, so the table's content is unaffected.

## Findings

| source | as written | input that shows it | evidently intended | confidence | as-written member | corrected member |
|---|---|---|---|---|---|---|
| src/main/java/com/frequentis/maritime/mcsr/web/rest/util/InstanceUtil.java:254-262 | `latDirection == "S"` and `lonDirection == "W"` compare references; a fresh `substring` result is never the interned literal, so no coordinate is ever negated (Coordinates.AsWrittenDropsHemisphere, Coordinates.SouthWestExample) | `"4230S 00115W"` is stored as (42.30, 1.15) | value comparison, giving (-42.30, -1.15), the sign the hemisphere letters of the layout at line 245 call for (proved round trip: Coordinates.DecodeEncode) | high; not executed | Coordinates.DecodeCoordinatesAsWritten | Coordinates.DecodeCoordinates |
