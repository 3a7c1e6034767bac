/** The reflection-driven table mapping of the storage package: a struct type
    is a table, its name the table name, its fields the columns in declaration
    order. Go reflection is replaced by an explicit description of the value
    handed in, and executing a statement by returning the statement text
    together with the arguments that would be bound to it. */
module Storage {
  import opened GoStrings

  /** Go's `int64`. */
  newtype Int64 = x: int | -0x8000_0000_0000_0000 <= x < 0x8000_0000_0000_0000

  datatype Option<T> = None | Some(value: T)

  /** The reflect kind of a field, reduced to the two the mapping accepts. */
  datatype Kind = Int64Kind | StringKind | OtherKind

  /** A field's run-time value; `OtherValue` stands for any value whose kind is
      neither `int64` nor `string` (its Go kind name is kept for reading). */
  datatype Value = Int64Value(i: Int64) | StringValue(s: string) | OtherValue(goKind: string)

  /** One struct field: its declared name and its value. */
  datatype Field = Field(name: string, value: Value)

  /** What reflection sees of the value handed to the storage functions: a
      struct with its type name and fields in declaration order, or a value
      of some other kind, which still has a (possibly empty) type name. */
  datatype Entity = Struct(typeName: string, fields: seq<Field>) | NotStruct(typeName: string)

  /** The package's error type, carrying a description. */
  datatype StorageError = StorageError(what: string)

  const ErrorPrefix: string := "Storage error: "
  const NotStructMessage: string :=
    "the kind of input interface but be a struct and represent the specific database table columns."
  const FieldTypeMessage: string :=
    "the interface struct fields must be either of type int64 or string."

  /** `storageError.Error()`: the description behind a fixed prefix. */
  function ErrorText(e: StorageError): (r: string)
    ensures |r| == |ErrorPrefix| + |e.what|
    ensures r[..|ErrorPrefix|] == ErrorPrefix && r[|ErrorPrefix|..] == e.what
  {
    ErrorPrefix + e.what
  }

  /** Distinct errors print differently: the description can be read back
      from the text. */
  lemma ErrorTextInjective(e1: StorageError, e2: StorageError)
    ensures ErrorText(e1) == ErrorText(e2) <==> e1 == e2
  {
    if ErrorText(e1) == ErrorText(e2) {
      assert e1.what == ErrorText(e1)[|ErrorPrefix|..];
      assert e2.what == ErrorText(e2)[|ErrorPrefix|..];
    }
  }

  /** `getName`: the table name is the type's name. */
  function GetName(s: Entity): string
  {
    s.typeName
  }

  function KindOf(v: Value): Kind
  {
    match v
    case Int64Value(_) => Int64Kind
    case StringValue(_) => StringKind
    case OtherValue(_) => OtherKind
  }

  /** A field may become a column only when its kind is int64 or string. */
  predicate Supported(f: Field)
  {
    KindOf(f.value) != OtherKind
  }

  /** A struct every field of which may become a column. */
  predicate WellFormed(s: Entity)
  {
    s.Struct? && forall i :: 0 <= i < |s.fields| ==> Supported(s.fields[i])
  }

  /** The index of the first field that may not become a column, or the
      number of fields when there is none. */
  function FirstUnsupported(fs: seq<Field>): (k: nat)
    ensures k <= |fs|
    ensures forall i :: 0 <= i < k ==> Supported(fs[i])
    ensures k < |fs| ==> !Supported(fs[k])
  {
    if |fs| == 0 then 0
    else if !Supported(fs[0]) then 0
    else 1 + FirstUnsupported(fs[1..])
  }

  /** The fields' names, in order. */
  function Names(fs: seq<Field>): seq<string>
  {
    seq(|fs|, i requires 0 <= i < |fs| => fs[i].name)
  }

  /** The fields' values, in order. */
  function ValuesOf(fs: seq<Field>): seq<Value>
  {
    seq(|fs|, i requires 0 <= i < |fs| => fs[i].value)
  }

  /** The three results of `getBindings`: the column names, the values to
      bind, and an error. With an error the lists hold what was collected
      before it. */
  datatype Bindings = Bindings(columns: seq<string>, values: seq<Value>, err: Option<StorageError>)

  /** The bindings of a struct's fields, field by field: a field of another
      kind stops the walk with an error and keeps what came before it. */
  function FieldBindings(fs: seq<Field>): (b: Bindings)
    ensures b.columns == Names(fs[..FirstUnsupported(fs)])
    ensures b.values == ValuesOf(fs[..FirstUnsupported(fs)])
    ensures b.err == (if FirstUnsupported(fs) < |fs| then Some(StorageError(FieldTypeMessage)) else None)
  {
    if |fs| == 0 then Bindings([], [], None)
    else if !Supported(fs[0]) then Bindings([], [], Some(StorageError(FieldTypeMessage)))
    else
      var rest := FieldBindings(fs[1..]);
      assert fs[..FirstUnsupported(fs)][1..] == fs[1..][..FirstUnsupported(fs[1..])];
      Bindings([fs[0].name] + rest.columns, [fs[0].value] + rest.values, rest.err)
  }

  /** What `getBindings` returns for a value. */
  function BindingsOf(s: Entity): (b: Bindings)
    ensures |b.columns| == |b.values|
    ensures b.err.None? <==> WellFormed(s)
    ensures s.NotStruct? ==> b == Bindings([], [], Some(StorageError(NotStructMessage)))
    ensures s.Struct? && b.err.Some? ==> b.err == Some(StorageError(FieldTypeMessage))
    ensures WellFormed(s) ==> b.columns == Names(s.fields) && b.values == ValuesOf(s.fields)
    ensures forall i :: 0 <= i < |b.values| ==> KindOf(b.values[i]) != OtherKind
  {
    match s
    case NotStruct(_) => Bindings([], [], Some(StorageError(NotStructMessage)))
    case Struct(_, fs) =>
      assert WellFormed(s) ==> FirstUnsupported(fs) == |fs| && fs[..|fs|] == fs;
      FieldBindings(fs)
  }

  /** `getBindings`: checks that the value is a struct, then walks its fields
      collecting column names and values until a field of another kind. */
  method GetBindings(s: Entity) returns (b: Bindings)
    ensures b == BindingsOf(s)
  {
    if s.NotStruct? {
      return Bindings([], [], Some(StorageError(NotStructMessage)));
    }
    var fs := s.fields;
    var columns: seq<string> := [];
    var values: seq<Value> := [];
    var i := 0;
    while i < |fs|
      invariant 0 <= i <= |fs|
      invariant forall j :: 0 <= j < i ==> Supported(fs[j])
      invariant columns == Names(fs[..i]) && values == ValuesOf(fs[..i])
    {
      if KindOf(fs[i].value) == Int64Kind || KindOf(fs[i].value) == StringKind {
        columns := columns + [fs[i].name];
        values := values + [fs[i].value];
      } else {
        return Bindings(columns, values, Some(StorageError(FieldTypeMessage)));
      }
      i := i + 1;
    }
    assert fs[..i] == fs;
    return Bindings(columns, values, None);
  }

  /** A statement as it would be handed to the database: its text and the
      arguments bound to it, in order. */
  datatype Statement = Statement(query: string, args: seq<Value>)

  /** The result of `TouchTable` or `Insert` up to the database call: the
      error from `getBindings`, or the statement that would be executed. */
  datatype Outcome = Failed(err: StorageError) | Execute(stmt: Statement)

  /** The SQL column type of a bound value: INTEGER for int64, TEXT otherwise. */
  function SqlType(v: Value): string
  {
    if KindOf(v) == Int64Kind then "INTEGER" else "TEXT"
  }

  const PrimaryKeySuffix: string := " PRIMARY KEY NOT NULL"

  /** One column definition of CREATE TABLE. Only a column named exactly
      "id" is made the primary key. */
  function ColumnDef(name: string, v: Value): string
  {
    if name == "id" then name + " " + SqlType(v) + PrimaryKeySuffix
    else name + " " + SqlType(v)
  }

  /** The column definitions, pairing each column with its value. */
  function ColumnDefs(columns: seq<string>, values: seq<Value>): seq<string>
    requires |columns| == |values|
  {
    seq(|columns|, i requires 0 <= i < |columns| => ColumnDef(columns[i], values[i]))
  }

  function CreateTableQuery(table: string, defs: seq<string>): string
  {
    "CREATE TABLE IF NOT EXISTS " + table + " (" + Join(defs, ", ") + ")"
  }

  function InsertQuery(table: string, columns: seq<string>): string
  {
    "INSERT INTO " + table + " (" + Join(columns, ", ") + ") VALUES (" + QuestionMarks(|columns|) + ")"
  }

  /** The error message `TouchTable` and `Insert` pass on for a value that
      cannot be mapped. */
  function ShapeError(s: Entity): StorageError
  {
    if s.NotStruct? then StorageError(NotStructMessage) else StorageError(FieldTypeMessage)
  }

  /** What `TouchTable` does for a value: the CREATE TABLE statement, or the
      error from `getBindings` with no statement at all. */
  function CreateTableStatement(s: Entity): (o: Outcome)
    ensures o.Failed? <==> !WellFormed(s)
    ensures o.Failed? ==> o.err == ShapeError(s)
    ensures o.Execute? ==> o.stmt.args == ValuesOf(s.fields)
  {
    var b := BindingsOf(s);
    if b.err.Some? then Failed(b.err.value)
    else Execute(Statement(CreateTableQuery(GetName(s), ColumnDefs(b.columns, b.values)), b.values))
  }

  /** What `Insert` does for a value: the INSERT statement, or the error from
      `getBindings` with no statement at all. */
  function InsertStatement(s: Entity): (o: Outcome)
    ensures o.Failed? <==> !WellFormed(s)
    ensures o.Failed? ==> o.err == ShapeError(s)
    ensures o.Execute? ==> o.stmt.args == ValuesOf(s.fields)
  {
    var b := BindingsOf(s);
    if b.err.Some? then Failed(b.err.value)
    else Execute(Statement(InsertQuery(GetName(s), b.columns), b.values))
  }

  /** `TouchTable`: gets the bindings, returns their error if any, and
      otherwise builds one column definition per column in a loop. */
  method TouchTable(s: Entity) returns (o: Outcome)
    ensures o == CreateTableStatement(s)
  {
    var table := GetName(s);
    var b := GetBindings(s);
    if b.err.Some? {
      return Failed(b.err.value);
    }
    var columns, values := b.columns, b.values;
    var fields: seq<string> := [];
    var i := 0;
    while i < |columns|
      invariant 0 <= i <= |columns|
      invariant fields == ColumnDefs(columns[..i], values[..i])
    {
      var kind := "";
      if KindOf(values[i]) == Int64Kind {
        kind := "INTEGER";
      } else {
        kind := "TEXT";
      }
      var def;
      if columns[i] == "id" {
        def := columns[i] + " " + kind + " PRIMARY KEY NOT NULL";
      } else {
        def := columns[i] + " " + kind;
      }
      assert def == ColumnDef(columns[i], values[i]);
      ColumnDefsSnoc(columns, values, i);
      fields := fields + [def];
      i := i + 1;
    }
    assert columns[..i] == columns && values[..i] == values;
    var query := "CREATE TABLE IF NOT EXISTS " + table + " (" + Join(fields, ", ") + ")";
    return Execute(Statement(query, values));
  }

  lemma ColumnDefsSnoc(columns: seq<string>, values: seq<Value>, i: nat)
    requires |columns| == |values| && i < |columns|
    ensures ColumnDefs(columns[..i + 1], values[..i + 1])
         == ColumnDefs(columns[..i], values[..i]) + [ColumnDef(columns[i], values[i])]
  {
  }

  /** `Insert`: gets the bindings, returns their error if any, and otherwise
      builds the INSERT statement with one placeholder per column. */
  method Insert(s: Entity) returns (o: Outcome)
    ensures o == InsertStatement(s)
  {
    var table := GetName(s);
    var b := GetBindings(s);
    if b.err.Some? {
      return Failed(b.err.value);
    }
    var questionMarks := Join(SplitChars(Repeat("?", |b.columns|)), ", ");
    var query := "INSERT INTO " + table + " (" + Join(b.columns, ", ") + ") VALUES (" + questionMarks + ")";
    return Execute(Statement(query, b.values));
  }

  // Properties of the statements.

  /** A column definition names the column first, then its SQL type:
      INTEGER for an int64 value and TEXT for every other. */
  lemma ColumnDefType(name: string, v: Value)
    ensures ColumnDef(name, v)[..|name| + 1] == name + " "
    ensures KindOf(v) == Int64Kind ==>
              |ColumnDef(name, v)| >= |name| + 8 && ColumnDef(name, v)[|name| + 1..|name| + 8] == "INTEGER"
    ensures KindOf(v) != Int64Kind ==>
              |ColumnDef(name, v)| >= |name| + 5 && ColumnDef(name, v)[|name| + 1..|name| + 5] == "TEXT"
  {
  }

  /** A column definition ends with PRIMARY KEY NOT NULL exactly when the
      column name is "id", compared case-sensitively. */
  lemma ColumnDefPrimaryKey(name: string, v: Value)
    ensures var d := ColumnDef(name, v);
            name == "id" <==> (|d| >= |PrimaryKeySuffix| && d[|d| - |PrimaryKeySuffix|..] == PrimaryKeySuffix)
  {
    var d := ColumnDef(name, v);
    var n := |PrimaryKeySuffix|;
    if name != "id" {
      // the definition then ends with its SQL type, whose last letter is not the suffix's 'L'
      assert d[|d| - 1] == SqlType(v)[|SqlType(v)| - 1] != 'L';
      if |d| >= n {
        assert d[|d| - n..][n - 1] == d[|d| - 1];
      }
    }
  }

  /** A struct field named "Id" does not become the primary key. */
  lemma CapitalIdIsNotPrimaryKey(table: string, id: Int64)
    ensures CreateTableStatement(Struct(table, [Field("Id", Int64Value(id))])).stmt.query
         == "CREATE TABLE IF NOT EXISTS " + table + " (Id INTEGER)"
  {
    var s := Struct(table, [Field("Id", Int64Value(id))]);
    assert WellFormed(s);
    assert "Id" != "id";
  }

  /** The CREATE TABLE statement for a value that can be mapped: the type name
      as table, one definition per field in declaration order joined by ", ",
      and the field values as arguments. */
  lemma CreateTableShape(s: Entity)
    requires WellFormed(s)
    ensures CreateTableStatement(s) == Execute(Statement(
              CreateTableQuery(s.typeName, seq(|s.fields|, i requires 0 <= i < |s.fields| => ColumnDef(s.fields[i].name, s.fields[i].value))),
              ValuesOf(s.fields)))
  {
    var b := BindingsOf(s);
    assert ColumnDefs(b.columns, b.values)
        == seq(|s.fields|, i requires 0 <= i < |s.fields| => ColumnDef(s.fields[i].name, s.fields[i].value));
  }

  /** The INSERT statement for a value that can be mapped: the type name as
      table, the field names in declaration order, as many placeholders as
      there are fields and arguments, and the field values as arguments. */
  lemma InsertShape(s: Entity)
    requires WellFormed(s)
    ensures InsertStatement(s) == Execute(Statement(InsertQuery(s.typeName, Names(s.fields)), ValuesOf(s.fields)))
    ensures Count(QuestionMarks(|s.fields|), '?') == |InsertStatement(s).stmt.args|
  {
    QuestionMarksCount(|s.fields|);
  }

  /** Both statements name their table by `getName`: the type name follows
      the statement's fixed opening words. */
  lemma TableNameInStatements(s: Entity)
    requires WellFormed(s)
    ensures var q := CreateTableStatement(s).stmt.query;
            |q| >= 27 + |GetName(s)| && q[..27 + |GetName(s)|] == "CREATE TABLE IF NOT EXISTS " + s.typeName
    ensures var q := InsertStatement(s).stmt.query;
            |q| >= 12 + |GetName(s)| && q[..12 + |GetName(s)|] == "INSERT INTO " + s.typeName
  {
    var b := BindingsOf(s);
    PrefixOfConcat("CREATE TABLE IF NOT EXISTS " + s.typeName,
                   " (" + Join(ColumnDefs(b.columns, b.values), ", ") + ")");
    PrefixOfConcat("INSERT INTO " + s.typeName,
                   " (" + Join(b.columns, ", ") + ") VALUES (" + QuestionMarks(|b.columns|) + ")");
  }

  lemma PrefixOfConcat(x: string, y: string)
    ensures |x + y| >= |x| && (x + y)[..|x|] == x
  {
  }

  /** Two values of the same type whose fields have the same names and kinds. */
  predicate SameShape(s1: Entity, s2: Entity)
  {
    s1.typeName == s2.typeName && s1.Struct? == s2.Struct? &&
    (s1.Struct? ==>
      |s1.fields| == |s2.fields| &&
      forall i :: 0 <= i < |s1.fields| ==>
        s1.fields[i].name == s2.fields[i].name && KindOf(s1.fields[i].value) == KindOf(s2.fields[i].value))
  }

  lemma {:induction false} FirstUnsupportedShape(fs1: seq<Field>, fs2: seq<Field>)
    requires |fs1| == |fs2|
    requires forall i :: 0 <= i < |fs1| ==> KindOf(fs1[i].value) == KindOf(fs2[i].value)
    ensures FirstUnsupported(fs1) == FirstUnsupported(fs2)
  {
    if |fs1| > 0 {
      FirstUnsupportedShape(fs1[1..], fs2[1..]);
    }
  }

  /** Values of the same shape have the same columns, the same error, and
      bound values of the same kinds. */
  lemma BindingsShape(s1: Entity, s2: Entity)
    requires SameShape(s1, s2)
    ensures BindingsOf(s1).columns == BindingsOf(s2).columns
    ensures BindingsOf(s1).err == BindingsOf(s2).err
    ensures |BindingsOf(s1).values| == |BindingsOf(s2).values|
    ensures forall i :: 0 <= i < |BindingsOf(s1).values| ==>
              KindOf(BindingsOf(s1).values[i]) == KindOf(BindingsOf(s2).values[i])
  {
    if s1.Struct? {
      FirstUnsupportedShape(s1.fields, s2.fields);
    }
  }

  /** Field values never reach the statement text: values of the same shape
      give the same CREATE TABLE and INSERT text, and differ only in the
      bound arguments. */
  lemma TextIgnoresValues(s1: Entity, s2: Entity)
    requires SameShape(s1, s2)
    ensures CreateTableStatement(s1).Failed? == CreateTableStatement(s2).Failed?
    ensures CreateTableStatement(s1).Execute? ==>
              CreateTableStatement(s1).stmt.query == CreateTableStatement(s2).stmt.query
    ensures InsertStatement(s1).Execute? ==>
              InsertStatement(s1).stmt.query == InsertStatement(s2).stmt.query
  {
    BindingsShape(s1, s2);
    var b1, b2 := BindingsOf(s1), BindingsOf(s2);
    assert ColumnDefs(b1.columns, b1.values) == ColumnDefs(b2.columns, b2.values);
  }
}
