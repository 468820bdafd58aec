/** The tag taxonomy read from `tags.json` under `metadata_tags`: groups in
    document order, each mapping a raw tag name to a pair
    `[declared type, column fragment]`, also in document order. */
module Tags {
  import opened Results
  import Strings

  datatype TagDef = TagDef(dataType: string, column: string)

  datatype Tag = Tag(name: string, def: TagDef)

  datatype Group = Group(name: string, tags: seq<Tag>)

  type Taxonomy = seq<Group>

  /** One step of the nested `for group ...: for tag ...:` loops. */
  datatype Entry = Entry(group: string, tag: Tag)

  /** The identity key every record carries and the table's first column. */
  const SourceFile: string := "SourceFile"

  /** The groups the table schema and the extractor command are built from,
      in the order they are read. */
  const CoreGroups: seq<string> := ["exif", "iptc", "xmp"]

  /** Python dict keys are unique: group names, and tag names within a group. */
  predicate WellFormed(tax: Taxonomy)
  {
    && (forall i, j :: 0 <= i < j < |tax| ==> tax[i].name != tax[j].name)
    && (forall g :: g in tax ==>
          forall i, j :: 0 <= i < j < |g.tags| ==> g.tags[i].name != g.tags[j].name)
  }

  predicate HasGroup(tax: Taxonomy, name: string)
  {
    exists i :: 0 <= i < |tax| && tax[i].name == name
  }

  function GroupEntries(g: Group): seq<Entry>
  {
    seq(|g.tags|, i requires 0 <= i < |g.tags| => Entry(g.name, g.tags[i]))
  }

  /** Every (group, tag) pair, group by group, tags in document order. */
  function Entries(tax: Taxonomy): seq<Entry>
  {
    if tax == [] then [] else GroupEntries(tax[0]) + Entries(tax[1..])
  }

  /** `metadata_tags[name]`: the first group of that name, or a KeyError. */
  function FindGroup(tax: Taxonomy, name: string): (r: Result<Group>)
    ensures r.Success? <==> HasGroup(tax, name)
    ensures r.Success? ==> r.value in tax && r.value.name == name
    ensures r.Failure? ==> r.error == KeyError(name)
  {
    if tax == [] then Failure(KeyError(name))
    else if tax[0].name == name then Success(tax[0])
    else
      var r := FindGroup(tax[1..], name);
      assert HasGroup(tax[1..], name) ==> HasGroup(tax, name) by {
        if HasGroup(tax[1..], name) {
          var i :| 0 <= i < |tax[1..]| && tax[1..][i].name == name;
          assert tax[i + 1].name == name;
        }
      }
      assert HasGroup(tax, name) ==> HasGroup(tax[1..], name) by {
        if HasGroup(tax, name) {
          var i :| 0 <= i < |tax| && tax[i].name == name;
          assert tax[1..][i - 1].name == name;
        }
      }
      r
  }

  /** The groups `names` looked up one after another, as in
      `[metadata_tags[g] for g in names]`: the first missing name raises. */
  function SelectGroups(tax: Taxonomy, names: seq<string>): (r: Result<seq<Group>>)
    ensures r.Success? <==> forall i :: 0 <= i < |names| ==> HasGroup(tax, names[i])
    ensures r.Success? ==> |r.value| == |names|
    ensures r.Success? ==> forall i :: 0 <= i < |names| ==> r.value[i] in tax && r.value[i].name == names[i]
    ensures r.Failure? ==>
      exists i :: 0 <= i < |names| && r.error == KeyError(names[i]) && !HasGroup(tax, names[i])
                  && forall j :: 0 <= j < i ==> HasGroup(tax, names[j])
  {
    if names == [] then Success([])
    else
      var g :- FindGroup(tax, names[0]);
      var rest :- SelectGroups(tax, names[1..]);
      Success([g] + rest)
  }

  /** When the taxonomy's groups are exactly `names`, in that order,
      selecting `names` gives back the whole taxonomy. */
  lemma {:induction false} SelectAllGroups(tax: Taxonomy, names: seq<string>)
    requires WellFormed(tax)
    requires |tax| == |names| && forall i :: 0 <= i < |tax| ==> tax[i].name == names[i]
    ensures SelectGroups(tax, names) == Success(tax)
  {
    SelectSuffix(tax, names, 0);
    assert tax[0..] == tax && names[0..] == names;
  }

  lemma {:induction false} SelectSuffix(tax: Taxonomy, names: seq<string>, k: nat)
    requires WellFormed(tax)
    requires |tax| == |names| && forall i :: 0 <= i < |tax| ==> tax[i].name == names[i]
    requires k <= |names|
    ensures SelectGroups(tax, names[k..]) == Success(tax[k..])
    decreases |names| - k
  {
    if k < |names| {
      FindDistinct(tax, k);
      SelectSuffix(tax, names, k + 1);
      assert names[k..][1..] == names[k + 1..];
      assert tax[k..] == [tax[k]] + tax[k + 1..];
    }
  }

  lemma {:induction false} FindDistinct(tax: Taxonomy, k: nat)
    requires WellFormed(tax)
    requires k < |tax|
    ensures FindGroup(tax, tax[k].name) == Success(tax[k])
  {
    if k > 0 {
      assert tax[0].name != tax[k].name;
      assert WellFormed(tax[1..]) by {
        forall g | g in tax[1..] ensures g in tax { }
      }
      FindDistinct(tax[1..], k - 1);
    }
  }

  /** `combine_tag_group_and_tag_name`: the group, an underscore, the name. */
  function Combine(group: string, name: string): string
  {
    group + "_" + name
  }

  /** Splits a qualified name at its first underscore. */
  function SplitQualified(s: string): (string, string)
  {
    if '_' in s then
      var k := Strings.IndexOf(s, '_');
      (s[..k], s[k + 1..])
    else
      (s, "")
  }

  /** For a group name without an underscore (as exif, iptc and xmp are),
      the qualified name determines both the group and the tag name. */
  lemma CombineSplit(group: string, name: string)
    requires '_' !in group
    ensures SplitQualified(Combine(group, name)) == (group, name)
  {
    var s := Combine(group, name);
    assert s[..|group|] == group && s[|group|] == '_' && s[|group| + 1..] == name;
    var k := Strings.IndexOf(s, '_');
    assert k == |group|;
  }
}
