/** The argument list handed to exiftool: options, the exclusion filter,
    one `-group:tag` request per tag of exif, iptc and xmp, and the folder. */
module Command {
  import opened Results
  import opened Tags
  import Strings
  import Schema

  const ExcludedFileTypes: seq<string> := [".txt", ".csv", ".db", ".args", ".json"]

  const MemoryOption: string := "-m 2000m"

  /** `--ext <type>` for each file type, in order. */
  function ExtArguments(types: seq<string>): (r: seq<string>)
    ensures |r| == |types|
    ensures forall i :: 0 <= i < |types| ==> r[i] == "--ext " + types[i]
  {
    if types == [] then [] else ["--ext " + types[0]] + ExtArguments(types[1..])
  }

  /** The exclusion filter: the `--ext` items joined by spaces. */
  function ExcludeFilter(): string
  {
    Strings.Join(ExtArguments(ExcludedFileTypes), ' ')
  }

  /** The request for one tag, `-group:tag`. */
  function TagArgument(e: Entry): string
  {
    "-" + e.group + ":" + e.tag.name
  }

  function TagArguments(es: seq<Entry>): (r: seq<string>)
    ensures |r| == |es|
    ensures forall i :: 0 <= i < |es| ==> r[i] == TagArgument(es[i])
  {
    if es == [] then [] else [TagArgument(es[0])] + TagArguments(es[1..])
  }

  /** The tag argument: every `-group:tag` request, separated by spaces. */
  function TagsArgument(groups: seq<Group>): string
  {
    Strings.Join(TagArguments(Entries(groups)), ' ')
  }

  /** The argument list for the selected groups,
      `exiftool [-m 2000m] -r -progress -j <filter> <tags> "<folder>"`,
      with the memory option only in the current revision. */
  function Arguments(groups: seq<Group>, folder: string, rev: Schema.Revision): (cmd: seq<string>)
    ensures |cmd| == (if rev == Schema.Current then 8 else 7)
    ensures cmd[0] == "exiftool"
    ensures rev == Schema.Current ==> cmd[1] == MemoryOption
    ensures cmd[|cmd| - 6..|cmd| - 3] == ["-r", "-progress", "-j"]
    ensures cmd[|cmd| - 3] == ExcludeFilter()
    ensures cmd[|cmd| - 2] == TagsArgument(groups)
    ensures cmd[|cmd| - 1] == "\"" + folder + "\""
  {
    var target := "\"" + folder + "\"";
    if rev == Schema.Current then
      ["exiftool", MemoryOption, "-r", "-progress", "-j", ExcludeFilter(), TagsArgument(groups), target]
    else
      ["exiftool", "-r", "-progress", "-j", ExcludeFilter(), TagsArgument(groups), target]
  }

  /** `get_exiftool_command` (current revision) and `_get_exiftool_command`
      (legacy revision): a KeyError naming the first of exif, iptc, xmp the
      taxonomy lacks, or the argument list for those three groups. */
  function ExiftoolCommand(tax: Taxonomy, folder: string, rev: Schema.Revision): (r: Result<seq<string>>)
    ensures r.Success? <==> forall i :: 0 <= i < |CoreGroups| ==> HasGroup(tax, CoreGroups[i])
    ensures r.Failure? ==>
      exists i :: 0 <= i < |CoreGroups| && r.error == KeyError(CoreGroups[i]) && !HasGroup(tax, CoreGroups[i])
                  && forall j :: 0 <= j < i ==> HasGroup(tax, CoreGroups[j])
    ensures r.Success? ==> r.value == Arguments(SelectGroups(tax, CoreGroups).value, folder, rev)
  {
    var selected := SelectGroups(tax, CoreGroups);
    if selected.Failure? then Failure(selected.error) else Success(Arguments(selected.value, folder, rev))
  }

  /** The exclusion filter is exactly five `--ext` items separated by
      single spaces: `--ext .txt --ext .csv --ext .db --ext .args --ext .json`. */
  lemma ExcludeFilterText()
    ensures ExcludeFilter()
         == "--ext .txt" + " " + "--ext .csv" + " " + "--ext .db" + " " + "--ext .args" + " " + "--ext .json"
  {
    var items := ExtArguments(ExcludedFileTypes);
    assert items[0] == "--ext .txt" && items[1] == "--ext .csv" && items[2] == "--ext .db";
    assert items[3] == "--ext .args" && items[4] == "--ext .json";
    Strings.JoinFive(items, ' ');
  }

  /** When no group or tag name holds a space, the tag argument splits back
      into one `-group:tag` request per tag, in order. */
  lemma TagArgumentSplits(tax: Taxonomy, folder: string, rev: Schema.Revision)
    requires ExiftoolCommand(tax, folder, rev).Success?
    requires |Entries(SelectGroups(tax, CoreGroups).value)| > 0
    requires forall e :: e in Entries(SelectGroups(tax, CoreGroups).value) ==> ' ' !in e.group && ' ' !in e.tag.name
    ensures var cmd := ExiftoolCommand(tax, folder, rev).value;
      Strings.Split(cmd[|cmd| - 2], ' ') == TagArguments(Entries(SelectGroups(tax, CoreGroups).value))
  {
    TagsArgumentSplits(SelectGroups(tax, CoreGroups).value);
  }

  lemma TagsArgumentSplits(groups: seq<Group>)
    requires |Entries(groups)| > 0
    requires forall e :: e in Entries(groups) ==> ' ' !in e.group && ' ' !in e.tag.name
    ensures Strings.Split(TagsArgument(groups), ' ') == TagArguments(Entries(groups))
  {
    var es := Entries(groups);
    var args := TagArguments(es);
    forall i | 0 <= i < |args| ensures ' ' !in args[i] {
      assert es[i] in es;
      assert args[i] == "-" + es[i].group + ":" + es[i].tag.name;
    }
    Strings.SplitJoin(args, ' ');
  }

  /** The legacy command is the current one without the memory option. */
  lemma LegacyCommandOmitsMemoryOption(tax: Taxonomy, folder: string)
    ensures ExiftoolCommand(tax, folder, Schema.Legacy).Success? == ExiftoolCommand(tax, folder, Schema.Current).Success?
    ensures ExiftoolCommand(tax, folder, Schema.Current).Success? ==>
      var current := ExiftoolCommand(tax, folder, Schema.Current).value;
      var legacy := ExiftoolCommand(tax, folder, Schema.Legacy).value;
      current == legacy[..1] + [MemoryOption] + legacy[1..]
  {
    if ExiftoolCommand(tax, folder, Schema.Current).Success? {
      ArgumentsOmitMemoryOption(SelectGroups(tax, CoreGroups).value, folder);
    }
  }

  /** The current argument list is the legacy one with the memory option
      inserted after the program name. */
  lemma ArgumentsOmitMemoryOption(groups: seq<Group>, folder: string)
    ensures var legacy := Arguments(groups, folder, Schema.Legacy);
      Arguments(groups, folder, Schema.Current) == legacy[..1] + [MemoryOption] + legacy[1..]
  {
    var legacy := Arguments(groups, folder, Schema.Legacy);
    var rest := ["-r", "-progress", "-j", ExcludeFilter(), TagsArgument(groups), "\"" + folder + "\""];
    assert legacy[..1] == ["exiftool"];
    assert legacy[1..] == rest;
  }
}
