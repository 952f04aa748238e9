/**
 * Record extraction from an uploaded script export: every `script` element
 * beneath the document root becomes one flat record of five labelled
 * fields, each read from the first direct child with a fixed tag, with the
 * placeholder "N/A" when that child is missing.
 */
module Extractor {
  import opened Wrappers
  import opened ElementTree

  /** The tag of the elements that become records. */
  const ScriptTag: string := "script"

  /** The placeholder stored in a field whose child element is missing. */
  const NotAvailable: string := "N/A"

  /**
   * A record: field label to value. A value is `None` when the child is
   * present but has no text, as Python's `None`.
   */
  type Record = map<string, Option<string>>

  /** A record label together with the child tag its value is read from. */
  datatype FieldSpec = FieldSpec(key: string, childTag: string)

  /**
   * The five fields of a record, in the order the record lists them. The
   * record itself is written out in `ScriptRecord`, as the source writes
   * its dict; `RecordField` proves that the two agree.
   */
  const Fields: seq<FieldSpec> := [
    FieldSpec("Name", "name"),
    FieldSpec("Description", "description"),
    FieldSpec("Type of Script", "type"),
    FieldSpec("Sys_id", "sys_id"),
    FieldSpec("Other Details", "other_details")
  ]

  /**
   * One field of the record for `script`: the text of its first direct
   * child tagged `childTag`, verbatim (possibly `None`), or "N/A" when no
   * direct child has that tag.
   */
  function FieldValue(script: Element, childTag: string): (v: Option<string>)
    ensures (forall i :: 0 <= i < |script.children| ==> script.children[i].tag != childTag)
            ==> v == Some(NotAvailable)
    ensures forall i :: 0 <= i < |script.children| && script.children[i].tag == childTag &&
                        (forall j :: 0 <= j < i ==> script.children[j].tag != childTag)
                        ==> v == script.children[i].text
  {
    match Find(script, childTag)
    case Some(child) => child.text
    case None => Some(NotAvailable)
  }

  /** The record built for one `script` element. */
  function ScriptRecord(script: Element): (r: Record)
    ensures r.Keys == {"Name", "Description", "Type of Script", "Sys_id", "Other Details"}
  {
    map[
      "Name" := FieldValue(script, "name"),
      "Description" := FieldValue(script, "description"),
      "Type of Script" := FieldValue(script, "type"),
      "Sys_id" := FieldValue(script, "sys_id"),
      "Other Details" := FieldValue(script, "other_details")
    ]
  }

  /**
   * The field labelled `key` in a record is read from child tag `childTag`,
   * as the field table pairs them: "N/A" when `script` has no direct child
   * with that tag, and otherwise the first such child's text, verbatim.
   */
  lemma RecordField(script: Element, key: string, childTag: string)
    requires FieldSpec(key, childTag) in Fields
    ensures key in ScriptRecord(script)
    ensures (forall i :: 0 <= i < |script.children| ==> script.children[i].tag != childTag)
            ==> ScriptRecord(script)[key] == Some(NotAvailable)
    ensures forall i :: 0 <= i < |script.children| && script.children[i].tag == childTag &&
                        (forall j :: 0 <= j < i ==> script.children[j].tag != childTag)
                        ==> ScriptRecord(script)[key] == script.children[i].text
  {
    var r := ScriptRecord(script);
    if key == "Name" {
      assert r[key] == FieldValue(script, "name");
    } else if key == "Description" {
      assert r[key] == FieldValue(script, "description");
    } else if key == "Type of Script" {
      assert r[key] == FieldValue(script, "type");
    } else if key == "Sys_id" {
      assert r[key] == FieldValue(script, "sys_id");
    } else {
      assert r[key] == FieldValue(script, "other_details");
    }
  }

  /**
   * Extracts one record per `script` element strictly beneath `root`, in
   * document order, by walking the matches and appending each record.
   */
  method ParseXml(root: Element) returns (data: seq<Record>)
    ensures |data| == CountBeneath(root, ScriptTag)
    ensures |data| == |FindAllBeneath(root, ScriptTag)|
    ensures forall i :: 0 <= i < |data| ==> data[i] == ScriptRecord(FindAllBeneath(root, ScriptTag)[i])
    ensures data == [] <==> (forall k :: 1 <= k < |Iter(root)| ==> Iter(root)[k].tag != ScriptTag)
  {
    var scripts := FindAllBeneath(root, ScriptTag);
    data := [];
    for n := 0 to |scripts|
      invariant |data| == n
      invariant forall i :: 0 <= i < n ==> data[i] == ScriptRecord(scripts[i])
    {
      var scriptData := ScriptRecord(scripts[n]);
      data := data + [scriptData];
    }
    FindAllCount(root, ScriptTag);
    FindAllEmpty(root, ScriptTag);
  }

  /** What the upload handler does with one parsed file. */
  datatype Outcome =
    | Generate(records: seq<Record>)  // the records are handed to document generation
    | NoValidData                     // "No valid data found in XML." is reported instead

  /** Parses one file's tree and decides whether document generation runs. */
  method ProcessFile(root: Element) returns (o: Outcome)
    ensures o == NoValidData <==> CountBeneath(root, ScriptTag) == 0
    ensures o.Generate? ==> |o.records| == CountBeneath(root, ScriptTag) > 0
    ensures o.Generate? ==> |o.records| == |FindAllBeneath(root, ScriptTag)|
    ensures o.Generate? ==> forall i :: 0 <= i < |o.records| ==>
              o.records[i] == ScriptRecord(FindAllBeneath(root, ScriptTag)[i])
  {
    var data := ParseXml(root);
    if data != [] {
      o := Generate(data);
    } else {
      o := NoValidData;
    }
  }

  /**
   * Only direct children's tags and texts are read: two `script` elements
   * whose direct children agree in tag and text give the same record,
   * whatever lies beneath those children (grandchildren, or the fields of a
   * nested `script`).
   */
  lemma RecordReadsDirectChildrenOnly(s1: Element, s2: Element)
    requires |s1.children| == |s2.children|
    requires forall i :: 0 <= i < |s1.children| ==>
               s1.children[i].tag == s2.children[i].tag && s1.children[i].text == s2.children[i].text
    ensures ScriptRecord(s1) == ScriptRecord(s2)
  {
    FieldValueDirect(s1, s2, "name");
    FieldValueDirect(s1, s2, "description");
    FieldValueDirect(s1, s2, "type");
    FieldValueDirect(s1, s2, "sys_id");
    FieldValueDirect(s1, s2, "other_details");
  }

  lemma FieldValueDirect(s1: Element, s2: Element, childTag: string)
    requires |s1.children| == |s2.children|
    requires forall i :: 0 <= i < |s1.children| ==>
               s1.children[i].tag == s2.children[i].tag && s1.children[i].text == s2.children[i].text
    ensures FieldValue(s1, childTag) == FieldValue(s2, childTag)
  {
    if Find(s1, childTag).Some? {
      var i := FirstWithTag(s1.children, childTag);
      assert FieldValue(s1, childTag) == s1.children[i].text;
    }
  }

  /**
   * A field is "N/A" exactly when its child is missing, unless the child's
   * own text is literally "N/A"; an empty child never yields the placeholder.
   */
  lemma PlaceholderMeansMissing(script: Element, childTag: string)
    ensures FieldValue(script, childTag) == Some(NotAvailable) <==>
              Find(script, childTag).None? || Find(script, childTag).value.text == Some(NotAvailable)
    ensures FieldValue(script, childTag) == None <==>
              Find(script, childTag).Some? && Find(script, childTag).value.text == None
  {
  }
}
