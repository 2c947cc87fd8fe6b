/**
 * `FeatureRecord.FromTdfNode`: a feature's description read from the TDF
 * block that declares it. Missing keys take defaults, and a footprint
 * that cannot be read as an integer is taken as 1 rather than rejected,
 * so every node gives a record.
 *
 * `TdfConvert.TryToInt32` is not part of this model: it is the parameter
 * `tryToInt32`, which gives `None` where the source's call returns false.
 */
module Features {
  import opened Geometry
  import opened Integers
  import opened Strings
  import opened Tdf

  datatype FeatureRecord = FeatureRecord(
    name: string,
    world: string,
    category: string,
    footprintX: int,
    footprintY: int,
    animFileName: string,
    sequenceName: string,
    objectName: string)

  /** `IDictionary.GetOrDefault(key, fallback)`. */
  function GetOrDefault(entries: map<string, string>, key: string, fallback: string): string {
    if key in entries then entries[key] else fallback
  }

  /** A footprint dimension: the key's value (by default "0") read as an integer, or 1 if it cannot be. */
  function Footprint(entries: map<string, string>, key: string, tryToInt32: string -> Option<int>): int {
    match tryToInt32(GetOrDefault(entries, key, "0"))
    case Some(v) => v
    case None => 1
  }

  /** `FeatureRecord.FromTdfNode(n)`. The footprint's depth is read from the key "footprintz". */
  function FromTdfNode(n: TdfNode, tryToInt32: string -> Option<int>): (r: FeatureRecord)
    ensures r.name == n.name
    ensures "world" in n.entries ==> r.world == n.entries["world"]
    ensures "category" in n.entries ==> r.category == n.entries["category"]
    ensures "filename" in n.entries ==> r.animFileName == n.entries["filename"]
    ensures "seqname" in n.entries ==> r.sequenceName == n.entries["seqname"]
    ensures "object" in n.entries ==> r.objectName == n.entries["object"]
    ensures "footprintx" in n.entries && tryToInt32(n.entries["footprintx"]).Some? ==>
      r.footprintX == tryToInt32(n.entries["footprintx"]).value
    ensures "footprintz" in n.entries && tryToInt32(n.entries["footprintz"]).Some? ==>
      r.footprintY == tryToInt32(n.entries["footprintz"]).value
  {
    FeatureRecord(
      n.name,
      GetOrDefault(n.entries, "world", ""),
      GetOrDefault(n.entries, "category", ""),
      Footprint(n.entries, "footprintx", tryToInt32),
      Footprint(n.entries, "footprintz", tryToInt32),
      GetOrDefault(n.entries, "filename", ""),
      GetOrDefault(n.entries, "seqname", ""),
      GetOrDefault(n.entries, "object", ""))
  }

  /**
   * Missing footprint keys read as "0": with a converter that reads "0" as
   * 0, a node without them gives a 0 × 0 footprint, and a node without the
   * text keys gives empty strings.
   */
  lemma MissingKeysDefault(n: TdfNode, tryToInt32: string -> Option<int>)
    requires tryToInt32("0") == Some(0)
    ensures var r := FromTdfNode(n, tryToInt32);
      r.name == n.name
      && ("footprintx" !in n.entries ==> r.footprintX == 0)
      && ("footprintz" !in n.entries ==> r.footprintY == 0)
      && ("world" !in n.entries ==> r.world == "")
      && ("category" !in n.entries ==> r.category == "")
      && ("filename" !in n.entries ==> r.animFileName == "")
      && ("seqname" !in n.entries ==> r.sequenceName == "")
      && ("object" !in n.entries ==> r.objectName == "")
  {
  }

  /** A footprint value the converter rejects becomes 1, whatever it was. */
  lemma UnreadableFootprintIsOne(n: TdfNode, tryToInt32: string -> Option<int>)
    ensures "footprintx" in n.entries && tryToInt32(n.entries["footprintx"]).None? ==> FromTdfNode(n, tryToInt32).footprintX == 1
    ensures "footprintz" in n.entries && tryToInt32(n.entries["footprintz"]).None? ==> FromTdfNode(n, tryToInt32).footprintY == 1
  {
  }

  /**
   * The footprint's second dimension depends on "footprintz" alone:
   * changing or adding "footprintx" (or a "footprinty", which is never
   * read) leaves it as it was.
   */
  lemma FootprintYReadsOnlyZ(n: TdfNode, tryToInt32: string -> Option<int>, key: string, value: string)
    requires key != "footprintz"
    ensures FromTdfNode(TdfNode(n.name, n.entries[key := value]), tryToInt32).footprintY == FromTdfNode(n, tryToInt32).footprintY
  {
  }

  /** The TDF block that describes a record: every field under its key, footprints in decimal. */
  function ToTdfNode(r: FeatureRecord): TdfNode {
    TdfNode(r.name, map[
      "world" := r.world,
      "category" := r.category,
      "footprintx" := IntToString(r.footprintX),
      "footprintz" := IntToString(r.footprintY),
      "filename" := r.animFileName,
      "seqname" := r.sequenceName,
      "object" := r.objectName])
  }

  /**
   * Reading back the block that describes a record, with `int.TryParse` as
   * the converter, gives the record: nothing is lost for footprints that
   * fit in an `int`.
   */
  lemma FromTdfNodeInvertsToTdfNode(r: FeatureRecord)
    requires IsInt32(r.footprintX) && IsInt32(r.footprintY)
    ensures FromTdfNode(ToTdfNode(r), TryParseInt32) == r
  {
    ParseRendered(r.footprintX);
    ParseRendered(r.footprintY);
    ReadsBackWith(r, TryParseInt32);
  }

  /** Reading back the block that describes a record gives the record, with any converter that reads its footprints back. */
  lemma ReadsBackWith(r: FeatureRecord, tryToInt32: string -> Option<int>)
    requires tryToInt32(IntToString(r.footprintX)) == Some(r.footprintX)
    requires tryToInt32(IntToString(r.footprintY)) == Some(r.footprintY)
    ensures FromTdfNode(ToTdfNode(r), tryToInt32) == r
  {
  }
}
