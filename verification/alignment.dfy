/** How the pieces meet at INSERT time: the statement's column list comes
    from the table the DDL created, its values from the record flattening. */
module Alignment {
  import opened Tags
  import Schema
  import Records

  /** Groups exactly exif, iptc and xmp, in that order. */
  predicate CoreOnly(tax: Taxonomy)
  {
    |tax| == |CoreGroups| && forall i :: 0 <= i < |tax| ==> tax[i].name == CoreGroups[i]
  }

  /** In the current revision, with the taxonomy's groups exactly exif, iptc
      and xmp, the INSERT lines up: reordering the created table's columns
      leaves them as they are, there are as many columns as DDL entries and
      as prepared values, and position i + 1 pairs tag i's column fragment
      with the value looked up under tag i's name. */
  lemma InsertLinesUp(tax: Taxonomy, rec: Records.Record)
    requires WellFormed(tax) && CoreOnly(tax)
    requires SourceFile in rec
    ensures Schema.CreateTableColumns(tax, Schema.Current).Success?
    ensures var columns := Schema.TableColumnNames(tax);
      var names := Schema.GetColumnNames(columns);
      var values := Records.PrepareValues(rec, tax).value;
      var es := Entries(tax);
      && names == columns
      && |Schema.CreateTableColumns(tax, Schema.Current).value| == |names| == |values|
      && forall i :: 0 <= i < |es| ==>
           names[i + 1] == es[i].tag.def.column && values[i + 1] == Records.StrippedValue(rec, es[i])
  {
    SelectAllGroups(tax, CoreGroups);
    Schema.GetColumnNamesFixed(Schema.TableColumnNames(tax));
    Records.PreparedStripped(rec, tax);
  }

  /** The same for the legacy revision, which uses the created table's
      column list without reordering and puts the raw SourceFile first. */
  lemma LegacyInsertLinesUp(tax: Taxonomy, rec: Records.Record)
    requires WellFormed(tax) && CoreOnly(tax)
    requires SourceFile in rec
    ensures Schema.CreateTableColumns(tax, Schema.Legacy).Success?
    ensures var names := Schema.TableColumnNames(tax);
      var values := Records.PrepareLegacyValues(rec, tax).value.values;
      var es := Entries(tax);
      && |Schema.CreateTableColumns(tax, Schema.Legacy).value| == |names| == |values|
      && values[0] == rec[SourceFile]
      && forall i :: 0 <= i < |es| ==>
           names[i + 1] == es[i].tag.def.column && values[i + 1] == Records.SanitizedValue(rec, es[i])
  {
    SelectAllGroups(tax, CoreGroups);
  }
}
