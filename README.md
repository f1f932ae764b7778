# MovieFullApp catalogue core in Dafny

MovieFullApp is an ASP.NET Core MVC application that keeps a catalogue of movies.
Each movie records the id of a user as its owner: Create stamps the signed-in
caller (null when nobody is signed in), and Edit stores whatever owner the form
posts. Each movie has one poster image in an Azure blob container, which both
controllers share. This project models the catalogue bookkeeping. That covers
the movie entity and the data-annotation rules it must satisfy. It also covers the
controller actions that list, show, create, edit and delete entries, over two
tables with the same code:

- `NewMoviesController` over the `NewMovie` table, keyed by an int identity column.
- `MoviesController` over the `Movie` table, keyed by a string that the form posts.

Files:

- `option.dfy`: module `Optional`. `Option` stands for a C# reference that may be null.
- `movies.dfy`: module `Movies`. The entity (`Movie<K>`, generic in its key type)
  and model binding with a `[Bind]` list. It also has the validation attributes
  as `System.ComponentModel.DataAnnotations` evaluates them: `[Required]`,
  `[StringLength]`, the two `[RegularExpression]` patterns as character classes,
  and `[Range]` over a price in integer cents. Last come the column widths of
  `ImageName` and `ImagePath`.
- `blob_names.dfy`: module `BlobNames`. `GetRandomBlobName` builds
  `ticks + "_" + guid + extension`. `Extension` is a stand-in for
  `Path.GetExtension`: it scans back from the end for a `.` that comes before
  any `/` or `\`.
- `catalog.dfy`: module `Catalog`. Each action is a function from the state
  before it to a response and the state after it. The state is a map from key to
  entry plus the set of uploaded blob names. What the store does on
  `SaveChangesAsync` is modelled as its outcome:
  - an INSERT refused on a taken key, on an explicit value for an identity
    column, or on an over-long `ImageName` or `ImagePath`;
  - an UPDATE that raises a concurrency conflict when it matches no row;
  - an `Update` of an entity whose generated key is unset, which becomes an
    INSERT.

  The properties relating several actions are lemmas here.
- `controllers.dfy`: module `Controllers`. Class `CatalogController<K>` holds
  the table (`rows`) and the container (`blobs`) as fields. `Create`, `Edit` and
  `DeleteConfirmed` are methods. They fill in the entity field by field and then
  add, update or remove it, as the source does. Each one's `ensures` ties its
  response and new state to the matching step function. Two factory methods give
  the two controllers:
  - `NewMoviesController`: identity keys, and an Edit bind list with every column.
  - `MoviesController`: posted keys, and an Edit bind list without `ImageName`
    and `ImagePath`.

The read-only actions are functions of the table: `Index`, `Details`, and
`Exists` (`NewMovieExists` / `MovieExists`). The GET forms of Edit and Delete
perform the same lookup as `Details` and are modelled by it.

Inputs that the code receives from outside are parameters:
- the signed-in user's id (`None` when nobody is signed in);
- the posted form values;
- the uploaded file's name;
- the formatted tick count and the GUID text;
- the container's answer to the upload (the blob's URI, or a failure);
- the next identity value;
- for Edit, a row that another request may insert between a failed update and
  the existence check that follows it.

Where an owner check, an owner-scoped list or a NotFound answer might be
expected, the model follows the code:
- Edit makes no ownership check and stores the posted `UserId`, so there is no
  `Forbidden` outcome.
- `Index` returns every row to every signed-in user.
- `DeleteConfirmed` of a missing key throws rather than answering NotFound, so of
  two deletes of one key the second fails with an exception.
- The movie table's key is the string that `MoviesController` works with, not
  the int of the older `Movie` table migration.

## Model

| member | source | states |
|---|---|---|
| `Movies.TitleRule` | MovieFullApp/Models/NewMovie.cs:17-19 | A valid title is non-null with 5 to 60 characters. A title of that length whose first character is not white space is valid. |
| `Movies.BlankTitleRejected` | MovieFullApp/Models/NewMovie.cs:17-19 | Five spaces meet the length rule but fail `[Required]`, which rejects all-white-space strings. |
| `Movies.PatternRule` | MovieFullApp/Models/NewMovie.cs:26 | A whole-string match of `^[A-Z]+[...]*$` is exactly: first character A-Z, every later character in the trailing class. |
| `Movies.GenreRule` | MovieFullApp/Models/NewMovie.cs:25-28 | A valid genre has 1 to 30 characters: A-Z first, then letters, `"`, `'`, white space or `-` (both directions). |
| `Movies.RatingRule` | MovieFullApp/Models/NewMovie.cs:35-38 | A valid rating has 1 to 5 characters: A-Z first, then the genre class plus digits (both directions). |
| `Movies.RuleExamples` | MovieFullApp/Models/NewMovie.cs:25-38 | "PG13" is a valid rating and "Sci-Fi" a valid genre. "pg" and "PG-13!" are not valid ratings. |
| `Movies.RoundToEven` | MovieFullApp/Models/NewMovie.cs:30 | The integer that `[Range]` with int operands compares is within half a unit of the price, and is even on a tie. |
| `Movies.RangeAsWrittenBounds` | MovieFullApp/Models/NewMovie.cs:30-33 | As written, `[Range(1, 100)]` accepts exactly the prices 0.51 to 100.50. |
| `Movies.RangeAsWrittenAdmitsOutOfRange` | MovieFullApp/Models/NewMovie.cs:30 | 0.51 and 100.50 pass the attribute as written but lie outside 1 to 100. |
| `Movies.ValidPriceRule` | MovieFullApp/Models/NewMovie.cs:30-33 | The corrected rule (1.00 to 100.00, in cents of the decimal(18,2) column) is exactly the rule as written minus the bands 0.51-0.99 and 100.01-100.50. |
| `Movies.IsValid` | MovieFullApp/Models/NewMovie.cs:17-38 | ModelState validity with the corrected price rule. Every entry it accepts, the attributes as written accept too. |
| `Movies.IsValidAsWrittenRule` | MovieFullApp/Models/NewMovie.cs:17-38 | The attributes as written accept exactly the entries `IsValid` accepts, plus those whose only fault is a price in one of the two rounding bands. |
| `Movies.ValidityIgnoresStamps` | MovieFullApp/Models/NewMovie.cs:14-50 | Validity does not depend on `Id`, `UserId`, `ImageName` or `ImagePath`: these carry no annotation, and ImageName and ImagePath are only bounded by their columns. |
| `BlobNames.ExtensionDot` | MovieFullApp/Controllers/NewMoviesController.cs:120 | Scanning back, the result is a `.` with no `.` or separator after it. With no result, every `.` is followed by one. |
| `BlobNames.Extension` | MovieFullApp/Controllers/NewMoviesController.cs:120 | A non-empty extension is the suffix from a `.` that is not the last character and has no later `.` or separator. Whenever such a `.` exists, the extension is the suffix from it. |
| `BlobNames.GetRandomBlobName` | MovieFullApp/Controllers/NewMoviesController.cs:118-122 | The name is the tick string, `_`, the GUID text and the file name's extension, in that order. |
| `BlobNames.BlobNameInjective` | MovieFullApp/Controllers/NewMoviesController.cs:121 | With the same ticks, names from equal-length GUIDs are equal only if the GUIDs and the extensions are. |
| `BlobNames.BlobNameKeepsExtension` | MovieFullApp/Controllers/MoviesController.cs:205-209 | When ticks and GUID contain no `.` or separator, the generated blob name has the same extension as the uploaded file. |
| `Catalog.Index` | MovieFullApp/Controllers/NewMoviesController.cs:41-55 | An anonymous caller is redirected home. A signed-in caller gets every row of the table and nothing else. |
| `Catalog.IndexIgnoresOwner` | MovieFullApp/Controllers/MoviesController.cs:44-50 | Every signed-in caller gets the same list. The owner query is contained in it, and equals it only if the caller owns every row. |
| `Catalog.Details` | MovieFullApp/Controllers/NewMoviesController.cs:68-83 | NotFound exactly for a null or absent id, otherwise the stored entry unchanged. The GET Edit (125-138) and GET Delete (176-191) do the same lookup. |
| `Catalog.Exists` | MovieFullApp/Controllers/NewMoviesController.cs:204-207 | The existence check holds exactly when the lookup of that id finds an entry. |
| `Catalog.CreateStep` | MovieFullApp/Controllers/NewMoviesController.cs:96-117 | Invalid entry: form shown again, nothing uploaded or stored. A valid entry without a file fails with a null dereference, a failed upload with the upload's exception (both changing nothing), and a refused INSERT with a store failure. A blob is uploaded only for a valid entry with a file. A valid entry with a file whose upload succeeds always leaves its blob in the container, and succeeds exactly when the store accepts the INSERT. The table changes only on success, then by one row under a fresh key, stamped with the caller, Title + "_Img" and the blob URI. |
| `Catalog.CreateThenDetails` | MovieFullApp/Controllers/MoviesController.cs:100-115 | After a successful Create the new key finds a row with the posted fields, the caller as owner (not the posted one), Title + "_Img" and the blob URI. The table has one more row. |
| `Catalog.CreateLongTitleFails` | MovieFullApp/Controllers/NewMoviesController.cs:109-113 | A valid title over 46 characters yields an image name over the varchar(50) column. Create fails after the upload, stores no row and leaves the blob behind. |
| `Catalog.CreateUploadFailureStoresNothing` | MovieFullApp/Controllers/MoviesController.cs:106-113 | When the upload fails, neither the table nor the container changes and Create does not succeed. |
| `Catalog.CreateRejectsRoundedPrices` | MovieFullApp/Controllers/NewMoviesController.cs:98-116 | Where the model departs from the program: an entry valid as written but not under the corrected rule has a price in one of the two bands. Create shows the form again and changes nothing, where the program would upload and store it. |
| `Catalog.EditRejectsRoundedPrices` | MovieFullApp/Controllers/NewMoviesController.cs:152-172 | The same departure in Edit: such an entry is shown again and the table is left as it was. |
| `Catalog.CreateInception` | MovieFullApp/Controllers/NewMoviesController.cs:98-114 | Creating "Inception" (Sci-Fi, PG13, 12.50) in an empty identity-keyed table stores one row under the next identity value, owned by the caller, named "Inception_Img", pointing at the URI. |
| `Catalog.EditStep` | MovieFullApp/Controllers/NewMoviesController.cs:145-173 | A route id different from the posted id gives NotFound with nothing changed. An invalid entry is shown again. A valid one replaces the stored row wholesale, with no owner check. A vanished row gives NotFound, or the rethrown conflict if a row with that key is back by the check. An update of an existing row with an over-long `ImageName` or `ImagePath` is refused. An entry whose identity key is unset (0) is inserted, and the edit succeeds exactly when the store accepts that INSERT. A refused write changes nothing. Any success stores exactly the bound entry. |
| `Catalog.EditThenDetails` | MovieFullApp/Controllers/MoviesController.cs:142-167 | After a successful Edit the route's row is exactly the bound entry, including the posted owner. The key set and every other row are unchanged. |
| `Catalog.EditImageFields` | MovieFullApp/Controllers/MoviesController.cs:142 | MoviesController's Edit nulls `ImageName` and `ImagePath` because its bind list omits them. NewMoviesController's Edit stores the posted ones. |
| `Catalog.DeleteConfirmedStep` | MovieFullApp/Controllers/NewMoviesController.cs:196-202 | Exactly the row with that key is removed and no other row or blob changes. With no such row the action throws. |
| `Catalog.DeleteTwice` | MovieFullApp/Controllers/MoviesController.cs:193-199 | A first delete removes the row (one row fewer). A second delete of the same key throws and changes nothing. |
| `Catalog.CreatePreservesTable` | MovieFullApp/Controllers/NewMoviesController.cs:98-113 | Create keeps every row keyed by its own Id and valid. |
| `Catalog.EditPreservesTable` | MovieFullApp/Controllers/MoviesController.cs:149-165 | Edit keeps every row keyed by its Id and valid, given that a concurrently inserted row is valid. |
| `Catalog.DeletePreservesTable` | MovieFullApp/Controllers/NewMoviesController.cs:196-202 | DeleteConfirmed keeps every row keyed by its Id and valid. |
| `Controllers.CatalogController.SaveAdded` | MovieFullApp/Controllers/NewMoviesController.cs:112-113 | `Add` then `SaveChangesAsync`: the table becomes the INSERT's result, or stays as it was with a store failure. |
| `Controllers.CatalogController.Create` | MovieFullApp/Controllers/NewMoviesController.cs:98-114 | Sets the owner, computes the blob name, uploads, sets the image fields and adds the row, step by step. The response and new state are those of `CreateStep`. |
| `Controllers.CatalogController.Edit` | MovieFullApp/Controllers/MoviesController.cs:144-169 | Compares the ids, validates, updates, and on a conflict checks existence. The response and new table are those of `EditStep`. |
| `Controllers.CatalogController.DeleteConfirmed` | MovieFullApp/Controllers/MoviesController.cs:195-198 | Find, Remove, save. The response and new table are those of `DeleteConfirmedStep`. |
| `Controllers.CatalogController.constructor` | MovieFullApp/Controllers/NewMoviesController.cs:31-38 | A controller over a given table and container, with its key policy and Edit bind list. |
| `Controllers.NewMoviesController` | MovieFullApp/Controllers/NewMoviesController.cs:31-38 | The int-keyed controller: identity keys with unset value 0, and an Edit bind list of every column. |
| `Controllers.MoviesController` | MovieFullApp/Controllers/MoviesController.cs:32-39 | The string-keyed controller: posted keys, and an Edit bind list without `ImageName` and `ImagePath`. |

## Left out

- `SetUPBlob` is left out. It creates the container and makes it public, fire-and-forget on static fields, which is Azure I/O and concurrency. The container handle itself is assigned before the first `await` (NewMoviesController.cs:61, MoviesController.cs:63), so it is set before any action runs. What may still be unfinished is creating the container and making it public. An upload into a container that does not exist yet fails, which `UploadFailed` covers. An image in a container that is not public yet is not modelled.
- The upload itself is left out: the container's answer (URI or failure) is a parameter, and the file's contents are not modelled.
- `DateTime.Now.Ticks`, `Guid.NewGuid()` and the `{0:10}` formatting are nondeterministic or library behaviour. The formatted tick string and the GUID text are parameters.
- `Path.GetExtension` is replaced by the stand-in `BlobNames.Extension`, which treats both `/` and `\` as separators, as on Windows. On Linux only `/` is a separator, so for a file name with a `\` after its last `.` the library returns an extension where the stand-in returns "". The null check is not modelled.
- EF Core change tracking and the exception machinery are left out. Only the outcome of `SaveChangesAsync` is modelled: a new table, a concurrency conflict, or a store failure.
- Edit's conflict path models one interleaving: another request inserts a row between the failed update and the existence check. Other interleavings of concurrent requests are not modelled.
- Sign-in, identity resolution, anti-forgery, routing and views are left out. The caller's id is an input. The GET `Create` action only renders a view.
- Model binding is an input: the posted values and the `[Bind]` list. Binding errors (an unparseable price or date) are not modelled, and the key is always bound.
- `Index` returns a list; the model returns the set of rows, so their order is not modelled.
- Prices are whole cents, as the decimal(18,2) column stores them. Posted prices with more decimal places, and the overflow the rule as written throws on a price beyond the int range, are not modelled.
- String lengths count UTF-16 code units. The lossy conversion of non-ASCII text into the varchar image columns is not modelled.
- A null route id on the string controller's Edit (POST) and DeleteConfirmed is not modelled, and ids are non-null in the model. With a null route id, Edit returns NotFound when the posted `Id` is non-null, and reaches `Update` with a null key only when the posted `Id` is null too. DeleteConfirmed ends in an exception.
- String keys are compared exactly. Under SQL Server's default case-insensitive collation, the `Movie` table's primary key, `FindAsync` and `MovieExists` treat "abc" and "ABC" as the same key. The model distinguishes them in `Details`, `Exists`, `Insert` and `Update`.
- Both controllers upload to the same container, "imagecontainernew". Each `CatalogController` keeps its own `blobs`, so the model does not show one controller's uploads to the other. Blob names only ever grow the set, so this changes no result of either controller.
- `Models/Movie.cs` is not part of this model. The `Movie` entity is taken to carry the fields and rules of `NewMovie`, with a string key.
- `HomeController.cs` (routing only), `ApplicationDbContext.cs` (`DbSet` registration) and the migrations (schema provisioning) are not modelled.

- Movies.IsValid: uses the corrected price rule (1.00 to 100.00), not `[Range(1, 100)]` as written. So `Catalog.CreateStep`, `Catalog.EditStep` and the controller methods show the form again for prices 0.51-0.99 and 100.01-100.50, which the program validates and stores. `Movies.IsValidAsWritten` models the rule as written, and `Catalog.CreateRejectsRoundedPrices` and `Catalog.EditRejectsRoundedPrices` state exactly where the two differ.

## Findings

| source | as written | input that shows it | evidently intended | confidence | as-written member | corrected member |
|---|---|---|---|---|---|---|
| MovieFullApp/Models/NewMovie.cs:30 | `[Range(1, 100)]` has int operands, so it converts the decimal price with `Convert.ToInt32` (round half to even) before comparing | Price 0.51 (or 100.50) passes validation | prices from 1.00 to 100.00 | medium, not executed | `Movies.RangeAsWrittenAdmitsOutOfRange` | `Movies.ValidPriceRule` |

The model's validity rule (`Movies.IsValid`) uses the corrected price rule `Movies.ValidPrice`.
