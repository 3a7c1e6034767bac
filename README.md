# Ordered cache and struct-to-table mapping of example-bot

This project models the two parts of the bot's persistence layer that contain real logic:

- **`syncmap.SyncMap[K, V]`** is a mutex-guarded map that remembers insertion order. It holds the bot's working set.
  - Module `Syncmap` models it as the class `SyncMap` with two fields, updated in place:
    - `keys`: the keys from oldest to newest.
    - `data`: the key-to-value map.
  - The invariant `Valid()` says that `keys` has no duplicates and lists exactly the keys of `data`. Every method keeps it.
  - Go's zero value of `V`, which `Get` and `First` return on a miss, is the constant `zero`. It is fixed when the map is constructed.
  - `GetAll` and `GetKeys` are loops that walk the entries from oldest to newest, as the source does.
  - The backing ordered map is a library that is not part of this model. The model gives it the usual ordered-map behaviour:
    - `Set` on a new key appends that key.
    - `Set` on an existing key overwrites the value and keeps the key's place. This is a modelling choice, and `OverwriteKeepsPlace` demonstrates it.
    - `Delete` removes the key and leaves the other keys in their order.
    - `Oldest`/`Next` walk `keys`.
- **The `storage` package** maps a Go struct to an SQLite table. The type name becomes the table name, and the field names become the column names in declaration order.
  - Module `Storage` replaces reflection with a description of the value: `Entity = Struct(typeName, fields) | NotStruct(typeName)`. Each field has a name and a value tagged by kind: int64, string or any other kind.
  - `GetBindings` and `TouchTable` are loops, as in the source. `Insert` is straight-line code.
  - Nothing is executed. `TouchTable` and `Insert` return either the error from `getBindings` or the statement that would be handed to the database, as its text plus the values bound to it in order. The pure functions `CreateTableStatement` and `InsertStatement` specify these results, and the lemmas state their properties.
  - Module `GoStrings` models the three `strings` functions that build the text: `Join`, `Repeat`, and `Split` with an empty separator.

Behaviour of the code that the model reproduces as written:

- Only a column named exactly `"id"` gets `PRIMARY KEY NOT NULL` (pkg/storage/storage.go:83), so a field named `Id` gets no primary key; `CapitalIdIsNotPrimaryKey` shows it. In Go a field named `id` is unexported, so in the running program `Interface()` (pkg/storage/storage.go:55) panics on it before line 83 is reached, and no table ever gets the clause. That panic is not modelled, so the model does emit the clause for such a field; `ColumnDefPrimaryKey` describes the text the code would build, not a reachable run.
- The package builds only CREATE TABLE and INSERT statements.
- `TouchTable` passes the field values as arguments to its CREATE TABLE statement even though the statement has no placeholders (pkg/storage/storage.go:91). The model keeps these arguments.

## Model

| member | source | states |
|---|---|---|
| `Syncmap.SyncMap.constructor` | pkg/syncmap/syncmap.go:16-18 | a new map, once initialised, is empty and satisfies the invariant |
| `Syncmap.SyncMap.Init` | pkg/syncmap/syncmap.go:16-18 | Init replaces the contents with an empty ordered map: no keys, no entries, invariant holds |
| `Syncmap.SyncMap.Get` | pkg/syncmap/syncmap.go:20-30 | found is true exactly when the key is present; then the value is the stored one, otherwise it is the zero value |
| `Syncmap.SyncMap.First` | pkg/syncmap/syncmap.go:32-42 | found is true exactly when the map is non-empty; then the value is the oldest key's value, otherwise it is the zero value |
| `Syncmap.SyncMap.GetAll` | pkg/syncmap/syncmap.go:44-54 | the values come oldest to newest, one per entry (length equals Len), and the i-th value belongs to the i-th key |
| `Syncmap.SyncMap.GetKeys` | pkg/syncmap/syncmap.go:56-66 | the keys come oldest to newest, without duplicates, exactly the present keys, as many as there are entries |
| `Syncmap.SyncMap.Set` | pkg/syncmap/syncmap.go:68-72 | afterwards the key maps to the new value and every other key's value is unchanged; a new key is appended as the newest, an existing one keeps its place |
| `Syncmap.SyncMap.Delete` | pkg/syncmap/syncmap.go:74-78 | the key is gone, no other entry changes, the other keys keep their relative order, and deleting an absent key changes nothing |
| `Syncmap.SyncMap.Clear` | pkg/syncmap/syncmap.go:80-84 | afterwards there are no keys and no entries |
| `Syncmap.SyncMap.Len` | pkg/syncmap/syncmap.go:86-91 | the count equals both the number of entries and the number of keys listed |
| `Syncmap.WithoutElements` | pkg/syncmap/syncmap.go:74-78 | removing a key from the key list keeps exactly the other keys and no duplicates |
| `Syncmap.WithoutAbsent` | pkg/syncmap/syncmap.go:74-78 | removing a key that is not listed leaves the key list unchanged |
| `Syncmap.WithoutAt` | pkg/syncmap/syncmap.go:74-78 | removing the key at position p closes the gap: the keys before and after it stay in order |
| `Syncmap.DistinctCardinality` | pkg/syncmap/syncmap.go:86-91 | a duplicate-free key list is as long as the set of its keys |
| `Syncmap.KeyCount` | pkg/syncmap/syncmap.go:86-91 | a duplicate-free list of exactly a map's keys has as many elements as the map has entries |
| `Syncmap.OverwriteKeepsPlace` | pkg/syncmap/syncmap.go:68-72 | for distinct keys a and b, setting a, then b, then a again leaves the order [a, b], and First returns a's new value |
| `Syncmap.ReinsertBecomesNewest` | pkg/syncmap/syncmap.go:68-78 | for distinct keys a and b, setting a and b, deleting a and setting a again gives the order [b, a] |
| `GoStrings.SplitJoinRoundTrip` | pkg/storage/storage.go:103 | splitting with an empty separator and joining the pieces with an empty separator gives back the original text |
| `GoStrings.RepeatChar` | pkg/storage/storage.go:103 | repeating a one-character string n times gives that character n times |
| `GoStrings.SplitQuestionMarks` | pkg/storage/storage.go:103 | splitting n repeated question marks gives n strings "?" |
| `GoStrings.QuestionMarksStep` | pkg/storage/storage.go:103 | for two or more columns, the placeholder list is "?, " followed by the list for one column fewer |
| `GoStrings.QuestionMarksShape` | pkg/storage/storage.go:103 | the placeholder list is empty for zero columns; otherwise it has 3n-2 characters, with "?" every third position and ", " between marks |
| `GoStrings.QuestionMarksCount` | pkg/storage/storage.go:103 | the placeholder list holds exactly n question marks |
| `Storage.ErrorText` | pkg/storage/storage.go:28-30 | the error text is the fixed prefix "Storage error: " followed by the description, which can be read back from it |
| `Storage.TableNameInStatements` | pkg/storage/storage.go:32-35 | getName's result names the table in both statements, right after "CREATE TABLE IF NOT EXISTS " and "INSERT INTO " |
| `Storage.ErrorTextInjective` | pkg/storage/storage.go:24-30 | two errors print the same text exactly when their descriptions are equal |
| `Storage.FirstUnsupported` | pkg/storage/storage.go:48-58 | the fields before the returned index are all int64 or string, and the field at that index, if any, is not |
| `Storage.FieldBindings` | pkg/storage/storage.go:48-61 | the columns and values are the names and values of the fields before the first unsupported one; the error is set exactly when such a field exists |
| `Storage.BindingsOf` | pkg/storage/storage.go:38-62 | a non-struct gives empty lists and the struct error; the lists have equal length; there is no error exactly when the value is a struct whose fields are all int64 or string, and then the lists are all names and values in declaration order |
| `Storage.GetBindings` | pkg/storage/storage.go:38-62 | the field-by-field loop returns exactly BindingsOf, including the partial lists that accompany an error |
| `Storage.CreateTableStatement` | pkg/storage/storage.go:66-93 | TouchTable fails exactly for a value that cannot be mapped, with the getBindings error and no statement; otherwise the statement's arguments are the field values in order |
| `Storage.InsertStatement` | pkg/storage/storage.go:96-109 | Insert fails exactly for a value that cannot be mapped, with the getBindings error and no statement; otherwise the bound values are the field values in order |
| `Storage.TouchTable` | pkg/storage/storage.go:66-93 | the loop that builds the column definitions yields exactly CreateTableStatement |
| `Storage.Insert` | pkg/storage/storage.go:96-109 | the method yields exactly InsertStatement |
| `Storage.ColumnDefType` | pkg/storage/storage.go:76-87 | a column definition is the column name, then a space, then INTEGER for an int64 value or TEXT for any other |
| `Storage.ColumnDefPrimaryKey` | pkg/storage/storage.go:83-87 | a column definition ends with PRIMARY KEY NOT NULL exactly when the column name is "id", compared case-sensitively |
| `Storage.CapitalIdIsNotPrimaryKey` | pkg/storage/storage.go:83-87 | a struct whose only field is an int64 named "Id" gets the table text "(Id INTEGER)", without a primary key |
| `Storage.CreateTableShape` | pkg/storage/storage.go:74-91 | for a mappable value the text is CREATE TABLE IF NOT EXISTS, the type name, and one definition per field in declaration order joined by ", " in parentheses; the arguments are the field values |
| `Storage.InsertShape` | pkg/storage/storage.go:103-107 | for a mappable value the text names the table by the type name and lists the field names in order; the placeholder list holds exactly as many question marks as there are bound values |
| `Storage.BindingsShape` | pkg/storage/storage.go:48-61 | two values with the same type name, field names and field kinds get the same columns, the same error, and bound values of the same kinds |
| `Storage.TextIgnoresValues` | pkg/storage/storage.go:90-107 | two values with the same type name, field names and field kinds give the same CREATE TABLE and INSERT text, so values reach the database only as bound arguments |

## Left out

- Database I/O is not modelled: `db.Exec`, `db.Query` and the sqlite driver (pkg/storage/storage.go:91, 107). The model stops at the statement that would be executed, so errors from the driver are not represented. The rows that `Insert` obtains from `db.Query` and never closes are not represented either.
- `Init` and `Close` of the storage package are not modelled (pkg/storage/storage.go:112-143). They create a file, open a connection and close it, all I/O against the file system and the driver.
- Go reflection is replaced by the `Entity` description. The panic that `Interface()` raises on an unexported field is not modelled, and neither is the panic that a nil interface value causes in `getBindings`.
- The mutex of `SyncMap` is not modelled. Each method is treated as one atomic step, so concurrent interleavings are not represented.
- The internals of the ordered-map library are not modelled. The model uses the abstract key sequence and map instead of the library's linked entries. The use of a `SyncMap` before `Init`, when its map pointer is still nil, is not represented: the constructor already yields an initialised map.
- `strings.Split` with an empty separator splits after each UTF-8 sequence. The model splits after each character, which gives the same result for the ASCII text involved here.
- main.go and the packages client, ui and text are not part of this model. They are Telegram transport, goroutine and signal handling, keyboard-markup assembly and JSON file loading.
