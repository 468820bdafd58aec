/** Schema derivation: the column definitions of `CREATE TABLE`, the
    `group_tag` column map, and the column list used by `INSERT`. */
module Schema {
  import opened Results
  import opened Tags
  import Strings
  import Dicts

  /** `Current` is databaseManager.py and metadataLoader.py; `Legacy` is the
      older single-file revision keywords-to-region.py. */
  datatype Revision = Current | Legacy

  /** `[SourceFile] TEXT`, the identity column. */
  const IdentityColumnDef: string := ColumnDef(SourceFile, "TEXT")

  /** The declared type as it goes into the DDL: verbatim in the current
      revision, upper-cased in the legacy one. */
  function RenderType(dataType: string, rev: Revision): string
  {
    if rev == Legacy then Strings.UpperAscii(dataType) else dataType
  }

  /** One column definition, `[column] type`. */
  function ColumnDef(column: string, dataType: string): string
  {
    "[" + column + "] " + dataType
  }

  /** The definition an entry contributes: its unprefixed column fragment and
      its declared type. The group-qualified name is not used. */
  function EntryColumnDef(e: Entry, rev: Revision): string
  {
    ColumnDef(e.tag.def.column, RenderType(e.tag.def.dataType, rev))
  }

  /** The inner loop: one definition per tag of a group, in tag order. */
  function TagColumnDefs(group: string, tags: seq<Tag>, rev: Revision): (r: seq<string>)
    ensures |r| == |tags|
    ensures forall i :: 0 <= i < |tags| ==> r[i] == EntryColumnDef(Entry(group, tags[i]), rev)
  {
    if tags == [] then []
    else [EntryColumnDef(Entry(group, tags[0]), rev)] + TagColumnDefs(group, tags[1..], rev)
  }

  /** The outer loop: group after group. */
  function GroupColumnDefs(groups: seq<Group>, rev: Revision): (r: seq<string>)
    ensures |r| == |Entries(groups)|
    ensures forall i :: 0 <= i < |r| ==> r[i] == EntryColumnDef(Entries(groups)[i], rev)
  {
    if groups == [] then []
    else TagColumnDefs(groups[0].name, groups[0].tags, rev) + GroupColumnDefs(groups[1..], rev)
  }

  /** The column list of `CREATE TABLE IF NOT EXISTS photo_metadata (...)`:
      it fails with a KeyError naming the first of exif, iptc, xmp that the
      taxonomy lacks; otherwise it is the identity column followed by one
      definition per tag of exif, iptc and xmp, in that order. */
  function CreateTableColumns(tax: Taxonomy, rev: Revision): (r: Result<seq<string>>)
    ensures r.Success? <==> forall i :: 0 <= i < |CoreGroups| ==> HasGroup(tax, CoreGroups[i])
    ensures r.Failure? ==>
      exists i :: 0 <= i < |CoreGroups| && r.error == KeyError(CoreGroups[i]) && !HasGroup(tax, CoreGroups[i])
                  && forall j :: 0 <= j < i ==> HasGroup(tax, CoreGroups[j])
    ensures r.Success? ==>
      var es := Entries(SelectGroups(tax, CoreGroups).value);
      && |r.value| == 1 + |es|
      && r.value[0] == IdentityColumnDef
      && forall i :: 0 <= i < |es| ==> r.value[i + 1] == EntryColumnDef(es[i], rev)
  {
    var selected := SelectGroups(tax, CoreGroups);
    if selected.Failure? then
      Failure(selected.error)
    else
      Success([IdentityColumnDef] + GroupColumnDefs(selected.value, rev))
  }

  /** The statement text: the definitions joined by commas in parentheses. */
  function CreateTableStatement(columns: seq<string>): string
  {
    "CREATE TABLE IF NOT EXISTS photo_metadata (" + Strings.Join(columns, ',') + ")"
  }

  const CreatePrefix: string := "CREATE TABLE IF NOT EXISTS photo_metadata ("

  /** The column list can be read back from the statement when no definition
      contains a comma. */
  lemma CreateTableStatementColumns(columns: seq<string>)
    requires |columns| > 0
    requires forall i :: 0 <= i < |columns| ==> ',' !in columns[i]
    ensures var st := CreateTableStatement(columns);
      && st[..|CreatePrefix|] == CreatePrefix
      && st[|st| - 1] == ')'
      && Strings.Split(st[|CreatePrefix|..|st| - 1], ',') == columns
  {
    var st := CreateTableStatement(columns);
    assert st[|CreatePrefix|..|st| - 1] == Strings.Join(columns, ',');
    Strings.SplitJoin(columns, ',');
  }

  /** The name a column definition declares: the text between the opening
      bracket and the first closing bracket. */
  function DeclaredName(def: string): string
    requires |def| > 0 && def[0] == '[' && ']' in def
  {
    def[1..Strings.IndexOf(def, ']')]
  }

  /** A bracketed column fragment without `]` is declared under exactly that
      name. */
  lemma DeclaredNameOfColumnDef(column: string, dataType: string)
    requires ']' !in column
    ensures var def := ColumnDef(column, dataType);
      |def| > 0 && def[0] == '[' && ']' in def && DeclaredName(def) == column
  {
    var def := ColumnDef(column, dataType);
    assert def[|column| + 1] == ']';
    assert def[1..|column| + 1] == column;
    var k := Strings.IndexOf(def, ']');
    assert k == |column| + 1;
  }

  /** The column names of the table that the definitions create: SourceFile
      and then each tag's unprefixed column fragment. */
  function TableColumnNames(groups: seq<Group>): (r: seq<string>)
    ensures |r| == 1 + |Entries(groups)| && r[0] == SourceFile
    ensures forall i :: 0 <= i < |Entries(groups)| ==> r[i + 1] == Entries(groups)[i].tag.def.column
  {
    var es := Entries(groups);
    [SourceFile] + seq(|es|, i requires 0 <= i < |es| => es[i].tag.def.column)
  }

  /** The DDL declares, position by position, the table's column names. */
  lemma CreateTableDeclaresColumns(tax: Taxonomy, rev: Revision)
    requires CreateTableColumns(tax, rev).Success?
    requires forall e :: e in Entries(tax) ==> ']' !in e.tag.def.column
    ensures var defs := CreateTableColumns(tax, rev).value;
      var names := TableColumnNames(SelectGroups(tax, CoreGroups).value);
      && |defs| == |names|
      && forall i :: 0 <= i < |defs| ==> DeclaresName(defs[i], names[i])
  {
    var defs := CreateTableColumns(tax, rev).value;
    var groups := SelectGroups(tax, CoreGroups).value;
    var names := TableColumnNames(groups);
    forall i | 0 <= i < |defs|
      ensures DeclaresName(defs[i], names[i])
    {
      DeclaredAt(tax, rev, groups, i);
    }
  }

  /** `def` is a bracketed definition declaring the column `name`. */
  predicate DeclaresName(def: string, name: string)
  {
    |def| > 0 && def[0] == '[' && ']' in def && DeclaredName(def) == name
  }

  lemma IdentityDeclaresSourceFile()
    ensures DeclaresName(IdentityColumnDef, SourceFile)
  {
    DeclaredNameOfColumnDef(SourceFile, "TEXT");
  }

  lemma DeclaredAt(tax: Taxonomy, rev: Revision, groups: seq<Group>, i: nat)
    requires CreateTableColumns(tax, rev).Success?
    requires groups == SelectGroups(tax, CoreGroups).value
    requires forall e :: e in Entries(tax) ==> ']' !in e.tag.def.column
    requires i < |CreateTableColumns(tax, rev).value|
    ensures DeclaresName(CreateTableColumns(tax, rev).value[i], TableColumnNames(groups)[i])
  {
    var defs := CreateTableColumns(tax, rev).value;
    var es := Entries(groups);
    if i == 0 {
      IdentityDeclaresSourceFile();
    } else {
      EntryOfSelected(tax, groups, i - 1);
      var e := es[i - 1];
      assert defs[i] == ColumnDef(e.tag.def.column, RenderType(e.tag.def.dataType, rev));
      DeclaredNameOfColumnDef(e.tag.def.column, RenderType(e.tag.def.dataType, rev));
    }
  }

  /** Every entry of a selection of groups is an entry of the taxonomy. */
  lemma EntryOfSelected(tax: Taxonomy, groups: seq<Group>, k: nat)
    requires forall g :: g in groups ==> g in tax
    requires k < |Entries(groups)|
    ensures Entries(groups)[k] in Entries(tax)
  {
    var e := Entries(groups)[k];
    var g, j := EntrySource(groups, k);
    EntryInTaxonomy(tax, g, j);
  }

  lemma {:induction false} EntrySource(groups: seq<Group>, k: nat) returns (g: Group, j: nat)
    requires k < |Entries(groups)|
    ensures g in groups && j < |g.tags| && Entries(groups)[k] == Entry(g.name, g.tags[j])
  {
    var first := GroupEntries(groups[0]);
    if k < |first| {
      g, j := groups[0], k;
    } else {
      g, j := EntrySource(groups[1..], k - |first|);
    }
  }

  lemma {:induction false} EntryInTaxonomy(tax: Taxonomy, g: Group, j: nat)
    requires g in tax && j < |g.tags|
    ensures Entry(g.name, g.tags[j]) in Entries(tax)
  {
    if tax[0] == g {
      assert GroupEntries(g)[j] == Entry(g.name, g.tags[j]);
    } else {
      EntryInTaxonomy(tax[1..], g, j);
    }
  }

  /** Key of the column map for an entry: group, underscore, the tag name
      with hyphens replaced. */
  function ColumnKey(e: Entry): string
  {
    Combine(e.group, Strings.ReplaceHyphens(e.tag.name))
  }

  /** Value of the column map for an entry: group, underscore, raw tag name. */
  function ColumnTarget(e: Entry): string
  {
    Combine(e.group, e.tag.name)
  }

  /** The assignments the map-building loop makes, one per entry. */
  function ColumnAssignments(es: seq<Entry>): (r: seq<(string, string)>)
    ensures |r| == |es|
    ensures forall i :: 0 <= i < |es| ==> r[i] == (ColumnKey(es[i]), ColumnTarget(es[i]))
  {
    seq(|es|, i requires 0 <= i < |es| => (ColumnKey(es[i]), ColumnTarget(es[i])))
  }

  /** A column-map key always has an underscore; SourceFile has none. */
  lemma ColumnKeyNotSourceFile(e: Entry)
    ensures ColumnKey(e) != SourceFile
  {
    var k := ColumnKey(e);
    var g := |e.group|;
    assert k[g] == '_' && |k| > g;
    if g < |SourceFile| {
      assert SourceFile[g] != '_';
    }
  }

  /** `load_column_map`: the assignments of every tag of every group in
      document order, then SourceFile mapped to itself. */
  function LoadColumnMap(tax: Taxonomy): map<string, string>
  {
    Dicts.Assign(ColumnAssignments(Entries(tax)))[SourceFile := SourceFile]
  }

  /** The map's keys: SourceFile, mapped to itself, and for every tag the
      key `group_` + tag with hyphens replaced; nothing else. */
  lemma LoadColumnMapKeys(tax: Taxonomy)
    ensures var m := LoadColumnMap(tax);
      var es := Entries(tax);
      && SourceFile in m && m[SourceFile] == SourceFile
      && (forall i :: 0 <= i < |es| ==> ColumnKey(es[i]) in m)
      && (forall k :: k in m && k != SourceFile ==> exists i :: 0 <= i < |es| && ColumnKey(es[i]) == k)
  {
    var es := Entries(tax);
    var assignments := ColumnAssignments(es);
    Dicts.AssignContents(assignments);
  }

  /** At most one entry per tag plus SourceFile. */
  lemma LoadColumnMapSize(tax: Taxonomy)
    ensures |LoadColumnMap(tax)| <= 1 + |Entries(tax)|
  {
    var m0 := Dicts.Assign(ColumnAssignments(Entries(tax)));
    Dicts.AssignSize(ColumnAssignments(Entries(tax)));
    assert LoadColumnMap(tax).Keys == m0.Keys + {SourceFile};
    assert |m0.Keys + {SourceFile}| <= |m0.Keys| + |{SourceFile}|;
  }

  /** A key holds the `group_tag` of the last tag producing it: a later tag
      whose sanitised key collides overwrites an earlier one. */
  lemma LoadColumnMapLastWins(tax: Taxonomy, i: nat)
    requires i < |Entries(tax)|
    requires forall j :: i < j < |Entries(tax)| ==> ColumnKey(Entries(tax)[j]) != ColumnKey(Entries(tax)[i])
    ensures ColumnKey(Entries(tax)[i]) in LoadColumnMap(tax)
    ensures LoadColumnMap(tax)[ColumnKey(Entries(tax)[i])] == ColumnTarget(Entries(tax)[i])
  {
    var es := Entries(tax);
    var assignments := ColumnAssignments(es);
    Dicts.AssignContents(assignments);
    assert Dicts.LastAssigned(assignments, i);
    ColumnKeyNotSourceFile(es[i]);
  }

  /** Without key collisions nothing is overwritten: the map has exactly one
      entry per tag plus SourceFile. */
  lemma LoadColumnMapNoCollision(tax: Taxonomy)
    requires forall i, j :: 0 <= i < j < |Entries(tax)| ==> ColumnKey(Entries(tax)[i]) != ColumnKey(Entries(tax)[j])
    ensures |LoadColumnMap(tax)| == 1 + |Entries(tax)|
    ensures forall i :: 0 <= i < |Entries(tax)| ==>
      ColumnKey(Entries(tax)[i]) in LoadColumnMap(tax) &&
      LoadColumnMap(tax)[ColumnKey(Entries(tax)[i])] == ColumnTarget(Entries(tax)[i])
  {
    var es := Entries(tax);
    var assignments := ColumnAssignments(es);
    Dicts.AssignDistinct(assignments);
    Dicts.AssignContents(assignments);
    forall i | 0 <= i < |es| ensures ColumnKey(es[i]) != SourceFile {
      ColumnKeyNotSourceFile(es[i]);
    }
    assert SourceFile !in Dicts.Assign(assignments);
  }

  /** `list.remove(x)`: drops the first occurrence. */
  function RemoveFirst(s: seq<string>, x: string): seq<string>
  {
    if x in s then
      var k := Strings.IndexOf(s, x);
      s[..k] + s[k + 1..]
    else
      s
  }

  /** `get_column_names`: SourceFile moved (or added) to the front, the
      other columns in their original relative order. */
  function GetColumnNames(columns: seq<string>): (r: seq<string>)
    ensures |r| > 0 && r[0] == SourceFile
    ensures SourceFile in columns ==> |r| == |columns|
    ensures SourceFile !in columns ==> |r| == |columns| + 1 && r[1..] == columns
    ensures SourceFile in columns ==>
      exists k :: 0 <= k < |columns| && columns[k] == SourceFile && SourceFile !in columns[..k]
                  && r[1..] == columns[..k] + columns[k + 1..]
    ensures multiset(r) == multiset(columns) + (if SourceFile in columns then multiset{} else multiset{SourceFile})
  {
    var r := [SourceFile] + RemoveFirst(columns, SourceFile);
    if SourceFile in columns then
      var k := Strings.IndexOf(columns, SourceFile);
      assert columns == columns[..k] + [columns[k]] + columns[k + 1..];
      assert r[1..] == columns[..k] + columns[k + 1..];
      r
    else
      r
  }

  /** A column list that already starts with SourceFile is left as it is. */
  lemma GetColumnNamesFixed(columns: seq<string>)
    requires |columns| > 0 && columns[0] == SourceFile
    ensures GetColumnNames(columns) == columns
  {
    assert Strings.IndexOf(columns, SourceFile) == 0;
  }

  /** Reordering twice is reordering once. */
  lemma GetColumnNamesIdempotent(columns: seq<string>)
    ensures GetColumnNames(GetColumnNames(columns)) == GetColumnNames(columns)
  {
    GetColumnNamesFixed(GetColumnNames(columns));
  }
}
