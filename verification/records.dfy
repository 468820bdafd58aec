/** Record shaping: renaming extractor keys through a tag table, and
    flattening one record into the positional value list of an INSERT. */
module Records {
  import opened Results
  import opened Tags
  import Strings
  import Sanitizer
  import Dicts

  /** A JSON value of an extracted record. `Other` stands for a float, list or
      object, carrying the text Python's `str()` renders it as. */
  datatype Value = Str(s: string) | Int(n: int) | Bool(b: bool) | Null | Other(text: string)

  /** A decoded JSON object, its members in document order. Python's
      `json.loads` keeps one member per key, so the methods below take
      objects whose keys are distinct (`Dicts.DistinctKeys`). */
  type RawRecord = seq<(string, Value)>

  /** A record once it is a Python dict. */
  type Record = map<string, Value>

  function Digits(n: nat): string
  {
    var d := ['0' + (n % 10) as char];
    if n < 10 then d else Digits(n / 10) + d
  }

  /** Python's `str(v)`. */
  function PyStr(v: Value): string
  {
    match v
    case Str(s) => s
    case Int(n) => if n < 0 then "-" + Digits(-n) else Digits(n)
    case Bool(b) => if b then "True" else "False"
    case Null => "None"
    case Other(text) => text
  }

  /** The name a key is stored under: the tag table's entry, or the key. */
  function RenameKey(key: string, table: map<string, string>): string
  {
    if key in table then table[key] else key
  }

  /** The assignments the renaming loop makes, one per member. */
  function RenamedMembers(obj: RawRecord, table: map<string, string>): (r: seq<(string, Value)>)
    ensures |r| == |obj|
    ensures forall i :: 0 <= i < |obj| ==> r[i] == (RenameKey(obj[i].0, table), obj[i].1)
  {
    seq(|obj|, i requires 0 <= i < |obj| => (RenameKey(obj[i].0, table), obj[i].1))
  }

  /** One record through the renaming loop. */
  function RenameRecord(obj: RawRecord, table: map<string, string>): Record
  {
    Dicts.Assign(RenamedMembers(obj, table))
  }

  /** Each member is stored under its renamed key with its value unchanged;
      when two keys are renamed alike the later member wins; there are never
      more keys than members. */
  lemma RenameRecordContents(obj: RawRecord, table: map<string, string>)
    ensures var m := RenameRecord(obj, table);
      && (forall k :: k in m <==> exists i :: 0 <= i < |obj| && RenameKey(obj[i].0, table) == k)
      && |m| <= |obj|
      && forall i :: 0 <= i < |obj| ==>
           (forall j :: i < j < |obj| ==> RenameKey(obj[j].0, table) != RenameKey(obj[i].0, table)) ==>
           m[RenameKey(obj[i].0, table)] == obj[i].1
  {
    var members := RenamedMembers(obj, table);
    Dicts.AssignSize(members);
    Dicts.AssignContents(members);
    assert forall i :: 0 <= i < |obj| ==>
      (forall j :: i < j < |obj| ==> RenameKey(obj[j].0, table) != RenameKey(obj[i].0, table)) ==>
      Dicts.LastAssigned(members, i);
  }

  /** A record whose keys are all absent from the tag table comes out as
      the plain dict of its members. */
  lemma RenameWithoutMatches(obj: RawRecord, table: map<string, string>)
    requires forall i :: 0 <= i < |obj| ==> obj[i].0 !in table
    ensures RenameRecord(obj, table) == Dicts.Assign(obj)
  {
    assert RenamedMembers(obj, table) == obj;
  }

  /** `convert_metadata_json_to_list`: one renamed record per input record,
      in order. */
  method ConvertMetadataJsonToList(metadataJson: seq<RawRecord>, tags: map<string, string>)
    returns (metadataList: seq<Record>)
    requires forall n :: 0 <= n < |metadataJson| ==> Dicts.DistinctKeys(metadataJson[n])
    ensures |metadataList| == |metadataJson|
    ensures forall n :: 0 <= n < |metadataJson| ==> metadataList[n] == RenameRecord(metadataJson[n], tags)
  {
    metadataList := [];
    var n := 0;
    while n < |metadataJson|
      invariant 0 <= n <= |metadataJson|
      invariant |metadataList| == n
      invariant forall p :: 0 <= p < n ==> metadataList[p] == RenameRecord(metadataJson[p], tags)
    {
      var metadata := RenameMembers(metadataJson[n], tags);
      metadataList := metadataList + [metadata];
      n := n + 1;
    }
  }

  /** The inner loop of `convert_metadata_json_to_list` over one record. */
  method RenameMembers(obj: RawRecord, tags: map<string, string>) returns (metadata: Record)
    requires Dicts.DistinctKeys(obj)
    ensures metadata == RenameRecord(obj, tags)
  {
    metadata := map[];
    var j := 0;
    while j < |obj|
      invariant 0 <= j <= |obj|
      invariant metadata == Dicts.Assign(RenamedMembers(obj[..j], tags))
    {
      var (key, value) := obj[j];
      RenameOneMore(obj, tags, j);
      if key in tags {
        metadata := metadata[tags[key] := value];
      } else {
        metadata := metadata[key := value];
      }
      j := j + 1;
    }
    assert obj[..j] == obj;
  }

  lemma RenameOneMore(obj: RawRecord, tags: map<string, string>, j: nat)
    requires j < |obj|
    ensures Dicts.Assign(RenamedMembers(obj[..j + 1], tags))
         == Dicts.Assign(RenamedMembers(obj[..j], tags))[RenameKey(obj[j].0, tags) := obj[j].1]
  {
    var before := RenamedMembers(obj[..j], tags);
    assert RenamedMembers(obj[..j + 1], tags) == before + [(RenameKey(obj[j].0, tags), obj[j].1)];
    Dicts.AssignSnoc(before, RenameKey(obj[j].0, tags), obj[j].1);
  }

  /** The key a tag's value is looked up under: the tag name with hyphens
      replaced, without any group prefix. */
  function LookupKey(e: Entry): string
  {
    Strings.ReplaceHyphens(e.tag.name)
  }

  /** `photo_metadata.get(key, "")`. */
  function Get(rec: Record, key: string): Value
  {
    if key in rec then rec[key] else Str("")
  }

  /** A tag's value in the current revision: strings are stripped, other
      values pass through. */
  function StrippedValue(rec: Record, e: Entry): Value
  {
    var v := Get(rec, LookupKey(e));
    if v.Str? then Str(Strings.Strip(v.s)) else v
  }

  function StrippedValues(rec: Record, es: seq<Entry>): (r: seq<Value>)
    ensures |r| == |es|
    ensures forall i :: 0 <= i < |es| ==> r[i] == StrippedValue(rec, es[i])
  {
    if es == [] then [] else [StrippedValue(rec, es[0])] + StrippedValues(rec, es[1..])
  }

  /** `prepare_metadata_values`: the record's SourceFile rendered with
      `str()`, then one value per tag of every group in document order; a
      missing key gives the empty string, a string value is stripped, any
      other value is unchanged. A record without SourceFile raises. */
  function PrepareValues(rec: Record, tax: Taxonomy): (r: Result<seq<Value>>)
    ensures r.Success? <==> SourceFile in rec
    ensures r.Failure? ==> r.error == KeyError(SourceFile)
    ensures r.Success? ==>
      var es := Entries(tax);
      && |r.value| == 1 + |es|
      && r.value[0] == Str(PyStr(rec[SourceFile]))
      && forall i :: 0 <= i < |es| ==>
           var key := LookupKey(es[i]);
           && (key !in rec ==> r.value[i + 1] == Str(""))
           && (key in rec && rec[key].Str? ==> r.value[i + 1] == Str(Strings.Strip(rec[key].s)))
           && (key in rec && !rec[key].Str? ==> r.value[i + 1] == rec[key])
  {
    if SourceFile !in rec then Failure(KeyError(SourceFile))
    else Success([Str(PyStr(rec[SourceFile]))] + StrippedValues(rec, Entries(tax)))
  }

  /** The prepared values after SourceFile are the tags' stripped values. */
  lemma PreparedStripped(rec: Record, tax: Taxonomy)
    requires SourceFile in rec
    ensures var values := PrepareValues(rec, tax).value;
      forall i :: 0 <= i < |Entries(tax)| ==> values[i + 1] == StrippedValue(rec, Entries(tax)[i])
  {
  }

  /** The value list of the legacy revision and the lookup keys whose
      string values its sanitisation changed. */
  datatype Prepared = Prepared(values: seq<Value>, problematicTags: seq<string>)

  /** A tag's value in the legacy revision: strings are sanitised, other
      values pass through. */
  function SanitizedValue(rec: Record, e: Entry): Value
  {
    var v := Get(rec, LookupKey(e));
    if v.Str? then Str(Sanitizer.Sanitize(v.s)) else v
  }

  /** The legacy loop flags a tag when its value is a string that the
      sanitisation changed. */
  predicate Changed(rec: Record, e: Entry)
  {
    var v := Get(rec, LookupKey(e));
    v.Str? && Sanitizer.Sanitize(v.s) != v.s
  }

  /** One legacy value per tag, in order. */
  function SanitizedValues(rec: Record, es: seq<Entry>): (r: seq<Value>)
    ensures |r| == |es|
    ensures forall i :: 0 <= i < |es| ==> r[i] == SanitizedValue(rec, es[i])
  {
    if es == [] then [] else [SanitizedValue(rec, es[0])] + SanitizedValues(rec, es[1..])
  }

  /** The keys the legacy loop reports, in order: every flagged tag is
      reported. */
  function ProblematicKeys(rec: Record, es: seq<Entry>): (r: seq<string>)
    ensures |r| <= |es|
    ensures forall i :: 0 <= i < |es| && Changed(rec, es[i]) ==> LookupKey(es[i]) in r
  {
    if es == [] then []
    else (if Changed(rec, es[0]) then [LookupKey(es[0])] else []) + ProblematicKeys(rec, es[1..])
  }

  /** Only flagged tags are reported. */
  lemma {:induction false} ProblematicKeysFlagged(rec: Record, es: seq<Entry>)
    ensures forall k :: k in ProblematicKeys(rec, es) ==>
      exists i :: 0 <= i < |es| && LookupKey(es[i]) == k && Changed(rec, es[i])
  {
    if es != [] {
      ProblematicKeysFlagged(rec, es[1..]);
      forall k | k in ProblematicKeys(rec, es[1..])
        ensures exists i :: 0 <= i < |es| && LookupKey(es[i]) == k && Changed(rec, es[i])
      {
        var i :| 0 <= i < |es[1..]| && LookupKey(es[1..][i]) == k && Changed(rec, es[1..][i]);
        assert es[i + 1] == es[1..][i];
      }
    }
  }

  /** The values loop of `_insert_metadata_into_database` in the legacy
      revision: the raw SourceFile value (no `str()`), then one value per tag
      of every group in document order; a missing key gives the empty
      string, a string value is sanitised, any other value is unchanged. A
      tag is reported as problematic exactly when its value is a string
      that is not made of word characters only, so the empty-string default
      is never reported. A record without SourceFile raises. */
  function PrepareLegacyValues(rec: Record, tax: Taxonomy): (r: Result<Prepared>)
    ensures r.Success? <==> SourceFile in rec
    ensures r.Failure? ==> r.error == KeyError(SourceFile)
    ensures r.Success? ==>
      var es := Entries(tax);
      && |r.value.values| == 1 + |es|
      && r.value.values[0] == rec[SourceFile]
      && (forall i :: 0 <= i < |es| ==>
            var key := LookupKey(es[i]);
            && (key !in rec ==> r.value.values[i + 1] == Str(""))
            && (key in rec && rec[key].Str? ==> r.value.values[i + 1] == Str(Sanitizer.Sanitize(rec[key].s)))
            && (key in rec && !rec[key].Str? ==> r.value.values[i + 1] == rec[key]))
      && (forall i :: 0 <= i < |es| ==>
            var key := LookupKey(es[i]);
            key in rec && rec[key].Str? && !Sanitizer.AllWord(rec[key].s) ==> key in r.value.problematicTags)
      && (forall k :: k in r.value.problematicTags ==>
            && (exists i :: 0 <= i < |es| && LookupKey(es[i]) == k)
            && k in rec && rec[k].Str? && !Sanitizer.AllWord(rec[k].s))
  {
    if SourceFile !in rec then Failure(KeyError(SourceFile))
    else
      var es := Entries(tax);
      var keys := ProblematicKeys(rec, es);
      ProblematicKeysFlagged(rec, es);
      forall i | 0 <= i < |es| ensures Changed(rec, es[i]) <==>
        (LookupKey(es[i]) in rec && rec[LookupKey(es[i])].Str? && !Sanitizer.AllWord(rec[LookupKey(es[i])].s))
      {
        var v := Get(rec, LookupKey(es[i]));
        if v.Str? {
          Sanitizer.SanitizeUnchangedIff(v.s);
        }
      }
      Success(Prepared([rec[SourceFile]] + SanitizedValues(rec, es), keys))
  }
}
