/**
 * What each action of NewMoviesController and MoviesController does to the movie
 * table and the blob container, as functions of the state before the action.
 *
 * The two controllers run the same code over two tables: NewMovie, keyed by an
 * int identity column, and Movie, keyed by a posted string. They differ in how
 * a row gets its key (KeyPolicy) and in the [Bind] list of the Edit action.
 * The table is a map from key to entry; the container is the set of blob names
 * uploaded so far. An exception that an action lets escape is a Failed response.
 */
module Catalog {
  import opened Optional
  import opened Movies
  import opened BlobNames

  /** The exceptions an action lets escape. */
  datatype Error =
    | NullReference        // Create found no uploaded file: newMovie.File is null
    | UploadFailure        // the blob upload threw
    | StoreFailure         // SaveChangesAsync threw a DbUpdateException
    | ConcurrencyConflict  // Edit rethrew a DbUpdateConcurrencyException
    | ArgumentNull         // DeleteConfirmed handed a null entity to Remove

  /** What an action returns to the framework. */
  datatype Response<K(==)> =
    | ListView(movies: set<Movie<K>>)   // the Index view over a list of entries
    | MovieView(movie: Movie<K>)        // a view over one stored entry
    | FormView(movie: Movie<K>)         // the posted form shown again with its errors
    | RedirectToIndex
    | RedirectToHome
    | NotFound
    | Failed(error: Error)

  /** The uploaded file of a Create form. */
  datatype FormFile = FormFile(fileName: string)

  /** The outcome of uploading the file to the blob container: the blob's absolute URI, or a failure. */
  datatype Upload = Uploaded(uri: string) | UploadFailed

  /**
   * How a new row gets its key: the posted key (Movie), or the next value of an
   * identity column when the posted key still has its unset value (NewMovie, 0).
   */
  datatype KeyPolicy<K(==)> = PostedKey | IdentityKey(unset: K)

  /** The movie table and the names of the blobs in the container. */
  datatype Store<K(==)> = Store(rows: map<K, Movie<K>>, blobs: set<string>)

  /** An action's response and the state it leaves behind. */
  datatype Step<K(==)> = Step(response: Response<K>, after: Store<K>)

  /** The [Bind] list of Create in both controllers (File aside). */
  const CreateBind: set<Column> := {Title, ReleaseDate, Genre, Price, Rating, IsPublic}

  /** The [Bind] list of NewMoviesController.Edit. */
  const NewMoviesEditBind: set<Column> :=
    {Title, ReleaseDate, Genre, Price, Rating, IsPublic, UserId, ImageName, ImagePath}

  /** The [Bind] list of MoviesController.Edit: no ImageName, no ImagePath. */
  const MoviesEditBind: set<Column> := {Title, ReleaseDate, Genre, Price, Rating, IsPublic, UserId}

  /** Every row's Id is its key. */
  predicate KeyedById<K(==)>(rows: map<K, Movie<K>>)
  {
    forall k :: k in rows ==> rows[k].id == k
  }

  /** Every row passed validation. */
  predicate AllValid<K(==)>(rows: map<K, Movie<K>>)
  {
    forall k :: k in rows ==> IsValid(rows[k])
  }

  // ---------------------------------------------------------------------------
  // The store: what SaveChangesAsync does with an added or updated entity.

  /** The key is the unset value of a generated key. */
  predicate IsUnset<K(==)>(keys: KeyPolicy<K>, id: K)
  {
    keys.IdentityKey? && id == keys.unset
  }

  /**
   * The key an INSERT gives the row, or None when the row carries an explicit
   * value for an identity column, which the database refuses.
   */
  function InsertKey<K(==)>(keys: KeyPolicy<K>, id: K, next: K): Option<K>
  {
    match keys
    case PostedKey => Some(id)
    case IdentityKey(unset) => if id == unset then Some(next) else None
  }

  datatype Write<K(==)> = Written(rows: map<K, Movie<K>>) | Conflict | WriteFailed

  /** SaveChanges for an added entity: an INSERT, refused on a taken key or an over-long column. */
  function Insert<K(==)>(keys: KeyPolicy<K>, rows: map<K, Movie<K>>, m: Movie<K>, next: K): Write<K>
  {
    match InsertKey(keys, m.id, next)
    case None => WriteFailed
    case Some(k) => if k in rows || !FitsColumns(m) then WriteFailed else Written(rows[k := m.(id := k)])
  }

  /**
   * SaveChanges after Update(m): an UPDATE of the row under m's key, which raises a
   * concurrency conflict when it matches no row; an entity whose generated key is
   * unset is tracked as added instead, and inserted.
   */
  function Update<K(==)>(keys: KeyPolicy<K>, rows: map<K, Movie<K>>, m: Movie<K>, next: K): Write<K>
  {
    if IsUnset(keys, m.id) then Insert(keys, rows, m, next)
    else if m.id !in rows then Conflict
    else if !FitsColumns(m) then WriteFailed
    else Written(rows[m.id := m])
  }

  // ---------------------------------------------------------------------------
  // The read-only actions.

  /**
   * Index: an anonymous caller is redirected home; a signed-in one gets every row
   * of the table, whoever owns it.
   */
  function Index<K(==)>(rows: map<K, Movie<K>>, caller: Option<string>): (r: Response<K>)
    ensures caller.None? <==> r == RedirectToHome
    ensures caller.Some? ==> r.ListView?
    ensures caller.Some? ==> forall k :: k in rows ==> rows[k] in r.movies
    ensures caller.Some? ==> forall m :: m in r.movies ==> exists k :: k in rows && rows[k] == m
  {
    if caller.None? then RedirectToHome else ListView(rows.Values)
  }

  /** The owner query `Where(m => m.UserId == userId)` that Index builds and then discards. */
  function OwnerFilter<K(==)>(rows: map<K, Movie<K>>, user: string): set<Movie<K>>
  {
    set k | k in rows && rows[k].userId == Some(user) :: rows[k]
  }

  /**
   * Details, and the GET forms of Edit and Delete: NotFound for a null or unknown
   * id, otherwise the stored entry as it is.
   */
  function Details<K(==)>(rows: map<K, Movie<K>>, id: Option<K>): (r: Response<K>)
    ensures r.NotFound? <==> id.None? || id.value !in rows
    ensures !r.NotFound? ==> r == MovieView(rows[id.value])
  {
    match id
    case None => NotFound
    case Some(k) => if k in rows then MovieView(rows[k]) else NotFound
  }

  /** NewMovieExists / MovieExists: whether a row has this key. */
  function Exists<K(==)>(rows: map<K, Movie<K>>, id: K): (b: bool)
    ensures b <==> Details(rows, Some(id)).MovieView?
  {
    id in rows
  }

  // ---------------------------------------------------------------------------
  // Create.

  /** Title + "_Img"; C# concatenates a null title as "". */
  function ImageNameFor(title: Option<string>): string
  {
    (if title.Some? then title.value else "") + "_Img"
  }

  /** The fields Create sets: the owner before the upload, the image name and URI after it. */
  function Stamp<K(==)>(m: Movie<K>, caller: Option<string>, uri: string): Movie<K>
  {
    m.(userId := caller, imageName := Some(ImageNameFor(m.title)), imagePath := Some(uri))
  }

  /**
   * Create (POST). `caller` is the signed-in user's id (None when nobody is signed
   * in), `ticks` and `guid` feed the blob name, `upload` is what the container
   * answers, and `next` is the value an identity column hands out.
   */
  function CreateStep<K(==)>(keys: KeyPolicy<K>, db: Store<K>, caller: Option<string>, posted: Movie<K>,
                         file: Option<FormFile>, ticks: string, guid: string, upload: Upload, next: K): (s: Step<K>)
    // an invalid entry is shown again: nothing is uploaded and nothing is stored
    ensures !IsValid(Bind(posted, CreateBind)) ==> s == Step(FormView(Bind(posted, CreateBind)), db)
    // a blob is uploaded only for a valid entry with a file, under the generated name
    ensures || s.after.blobs == db.blobs
            || (&& IsValid(Bind(posted, CreateBind)) && file.Some? && upload.Uploaded?
                && s.after.blobs == db.blobs + {GetRandomBlobName(file.value.fileName, ticks, guid)})
    // the table changes only when the action succeeds
    ensures s.response == RedirectToIndex || s.after.rows == db.rows
    ensures s.response.FormView? || s.response.Failed? || s.response == RedirectToIndex
    // a valid entry without a file dereferences null; a failed upload throws; both change nothing
    ensures IsValid(Bind(posted, CreateBind)) && file.None? ==> s == Step(Failed(NullReference), db)
    ensures IsValid(Bind(posted, CreateBind)) && file.Some? && upload.UploadFailed? ==> s == Step(Failed(UploadFailure), db)
    // an INSERT the store refuses throws after the upload
    ensures && IsValid(Bind(posted, CreateBind)) && file.Some? && upload.Uploaded?
            && !Insert(keys, db.rows, Stamp(Bind(posted, CreateBind), caller, upload.uri), next).Written?
            ==> s.response == Failed(StoreFailure)
    // a valid entry with a file whose upload succeeds always leaves its blob behind
    ensures IsValid(Bind(posted, CreateBind)) && file.Some? && upload.Uploaded? ==>
      s.after.blobs == db.blobs + {GetRandomBlobName(file.value.fileName, ticks, guid)}
    // ... and succeeds exactly when the store accepts the INSERT
    ensures IsValid(Bind(posted, CreateBind)) && file.Some? && upload.Uploaded? ==>
      (s.response == RedirectToIndex <==>
       Insert(keys, db.rows, Stamp(Bind(posted, CreateBind), caller, upload.uri), next).Written?)
    // success: the upload happened, and exactly one row was added under a fresh key,
    // owned by the caller and pointing at the uploaded blob
    ensures s.response == RedirectToIndex ==>
      && file.Some? && upload.Uploaded?
      && s.after.blobs == db.blobs + {GetRandomBlobName(file.value.fileName, ticks, guid)}
      && InsertKey(keys, posted.id, next).Some?
      && var key := InsertKey(keys, posted.id, next).value;
         && key !in db.rows
         && s.after.rows == db.rows[key := Stamp(Bind(posted, CreateBind), caller, upload.uri).(id := key)]
  {
    var movie := Bind(posted, CreateBind);
    if !IsValid(movie) then Step(FormView(movie), db)
    else if file.None? then Step(Failed(NullReference), db)
    else match upload
      case UploadFailed => Step(Failed(UploadFailure), db)
      case Uploaded(uri) =>
        var blobs := db.blobs + {GetRandomBlobName(file.value.fileName, ticks, guid)};
        match Insert(keys, db.rows, Stamp(movie, caller, uri), next)
        case Written(rows) => Step(RedirectToIndex, Store(rows, blobs))
        case _ => Step(Failed(StoreFailure), db.(blobs := blobs))
  }

  // ---------------------------------------------------------------------------
  // Edit (POST) and DeleteConfirmed.

  /** The table as the existence check after a conflict sees it: another request may have inserted a row meanwhile. */
  function Interleave<K(==)>(rows: map<K, Movie<K>>, interleaved: Option<Movie<K>>): map<K, Movie<K>>
  {
    match interleaved
    case None => rows
    case Some(m) => rows[m.id := m]
  }

  /**
   * Edit (POST). `id` is the route id, `posted` the form bound with `editBind`;
   * `interleaved` is a row another request inserts between a conflicting write and
   * the existence check that follows it.
   */
  function EditStep<K(==)>(keys: KeyPolicy<K>, editBind: set<Column>, db: Store<K>, id: K, posted: Movie<K>,
                       next: K, interleaved: Option<Movie<K>>): (s: Step<K>)
    ensures s.after.blobs == db.blobs
    // a route id that differs from the posted one: NotFound, nothing changes
    ensures id != posted.id ==> s == Step(NotFound, db)
    // an invalid entry is shown again, nothing changes
    ensures id == posted.id && !IsValid(Bind(posted, editBind)) ==> s == Step(FormView(Bind(posted, editBind)), db)
    // the stored entry is replaced wholesale by the bound one, with no owner check; no other row changes
    ensures var movie := Bind(posted, editBind);
      id == posted.id && IsValid(movie) && id in db.rows && !IsUnset(keys, id) && FitsColumns(movie) ==>
      s == Step(RedirectToIndex, db.(rows := db.rows[id := movie]))
    // the row has vanished: NotFound, or the conflict itself when a row with that key is back by the time of the check
    ensures id == posted.id && IsValid(Bind(posted, editBind)) && id !in db.rows && !IsUnset(keys, id) ==>
      && s.after.rows == Interleave(db.rows, interleaved)
      && s.response == (if id in s.after.rows then Failed(ConcurrencyConflict) else NotFound)
    // an existing row's update whose ImageName or ImagePath overflows its column is refused
    ensures var movie := Bind(posted, editBind);
      id == posted.id && IsValid(movie) && id in db.rows && !IsUnset(keys, id) && !FitsColumns(movie) ==>
      s == Step(Failed(StoreFailure), db)
    // an entity whose generated key is unset is inserted, and succeeds exactly when the store accepts the INSERT
    ensures var movie := Bind(posted, editBind);
      id == posted.id && IsValid(movie) && IsUnset(keys, id) ==>
      s.response == (if Insert(keys, db.rows, movie, next).Written? then RedirectToIndex else Failed(StoreFailure))
    // a refused write (an over-long image column, an insert the store refuses) changes nothing
    ensures s.response == Failed(StoreFailure) ==> s == Step(Failed(StoreFailure), db)
    ensures s.response.NotFound? || s.response.FormView? || s.response.Failed? || s.response == RedirectToIndex
    // any success stores the bound entry: under its key, or as a new row when its generated key is unset
    ensures s.response == RedirectToIndex ==>
      && id == posted.id && IsValid(Bind(posted, editBind))
      && var key := if IsUnset(keys, id) then next else id;
         s.after.rows == db.rows[key := Bind(posted, editBind).(id := key)]
  {
    var movie := Bind(posted, editBind);
    if id != movie.id then Step(NotFound, db)
    else if !IsValid(movie) then Step(FormView(movie), db)
    else match Update(keys, db.rows, movie, next)
      case Written(rows) => Step(RedirectToIndex, db.(rows := rows))
      case WriteFailed => Step(Failed(StoreFailure), db)
      case Conflict =>
        var rows := Interleave(db.rows, interleaved);
        if Exists(rows, movie.id) then Step(Failed(ConcurrencyConflict), db.(rows := rows))
        else Step(NotFound, db.(rows := rows))
  }

  /**
   * DeleteConfirmed: removes the row with that key. There is no existence check:
   * for an unknown key Find yields null and Remove throws.
   */
  function DeleteConfirmedStep<K(==)>(db: Store<K>, id: K): (s: Step<K>)
    ensures s.after.blobs == db.blobs
    ensures s.after.rows.Keys == db.rows.Keys - {id}
    ensures forall k :: k in s.after.rows ==> s.after.rows[k] == db.rows[k]
    ensures s.response == if id in db.rows then RedirectToIndex else Failed(ArgumentNull)
  {
    if id in db.rows then Step(RedirectToIndex, db.(rows := db.rows - {id}))
    else Step(Failed(ArgumentNull), db)
  }

  // ---------------------------------------------------------------------------
  // Properties relating the actions.

  /** Index hands every signed-in caller the same list; it equals the owner query only when the caller owns every row. */
  lemma IndexIgnoresOwner<K>(rows: map<K, Movie<K>>, user: string, other: string)
    ensures Index(rows, Some(user)) == Index(rows, Some(other))
    ensures OwnerFilter(rows, user) <= Index(rows, Some(user)).movies
    ensures Index(rows, Some(user)).movies == OwnerFilter(rows, user) <==>
      forall k :: k in rows ==> rows[k].userId == Some(user)
  {
    var all := Index(rows, Some(user)).movies;
    if all == OwnerFilter(rows, user) {
      forall k | k in rows ensures rows[k].userId == Some(user) {
        assert rows[k] in OwnerFilter(rows, user);
      }
    }
  }

  /**
   * Create followed by Details: the new row is found under its key, holds the
   * posted fields, the caller as owner, Title + "_Img" and the blob URI, and the
   * table has grown by exactly one row.
   */
  lemma CreateThenDetails<K>(keys: KeyPolicy<K>, db: Store<K>, caller: Option<string>, posted: Movie<K>,
                             file: Option<FormFile>, ticks: string, guid: string, upload: Upload, next: K)
    requires CreateStep(keys, db, caller, posted, file, ticks, guid, upload, next).response == RedirectToIndex
    ensures InsertKey(keys, posted.id, next).Some?
    ensures var s := CreateStep(keys, db, caller, posted, file, ticks, guid, upload, next);
      var key := InsertKey(keys, posted.id, next).value;
      && |s.after.rows| == |db.rows| + 1
      && Details(s.after.rows, Some(key)).MovieView?
      && var m := Details(s.after.rows, Some(key)).movie;
         && m.id == key && m.userId == caller
         && m.title == posted.title && m.releaseDate == posted.releaseDate && m.genre == posted.genre
         && m.priceCents == posted.priceCents && m.rating == posted.rating && m.isPublic == posted.isPublic
         && m.title.Some? && m.imageName == Some(m.title.value + "_Img")
         && m.imagePath == Some(upload.uri)
  {
    var s := CreateStep(keys, db, caller, posted, file, ticks, guid, upload, next);
    var key := InsertKey(keys, posted.id, next).value;
    assert s.after.rows.Keys == db.rows.Keys + {key};
  }

  /**
   * A valid title of more than 46 characters gives an image name longer than its
   * varchar(50) column: Create then fails after the upload, and the blob is left
   * behind with no row pointing at it.
   */
  lemma CreateLongTitleFails<K>(keys: KeyPolicy<K>, db: Store<K>, caller: Option<string>, posted: Movie<K>,
                                file: Option<FormFile>, ticks: string, guid: string, upload: Upload, next: K)
    requires IsValid(Bind(posted, CreateBind)) && file.Some? && upload.Uploaded?
    requires |posted.title.value| > 46
    ensures var s := CreateStep(keys, db, caller, posted, file, ticks, guid, upload, next);
      && s.response == Failed(StoreFailure)
      && s.after.rows == db.rows
      && s.after.blobs == db.blobs + {GetRandomBlobName(file.value.fileName, ticks, guid)}
  {
    var m := Stamp(Bind(posted, CreateBind), caller, upload.uri);
    assert |m.imageName.value| == |posted.title.value| + 4;
    assert !FitsColumns(m);
  }

  /** A failed upload stores nothing: no row, no blob. */
  lemma CreateUploadFailureStoresNothing<K>(keys: KeyPolicy<K>, db: Store<K>, caller: Option<string>, posted: Movie<K>,
                                            file: Option<FormFile>, ticks: string, guid: string, next: K)
    ensures var s := CreateStep(keys, db, caller, posted, file, ticks, guid, UploadFailed, next);
      s.after == db && s.response != RedirectToIndex
  {
  }

  /**
   * Edit followed by Details: the route's row now holds exactly the bound entry,
   * including the posted owner, whoever owned it before; every other row is as it was.
   */
  lemma EditThenDetails<K>(keys: KeyPolicy<K>, editBind: set<Column>, db: Store<K>, id: K, posted: Movie<K>,
                           next: K, interleaved: Option<Movie<K>>)
    requires EditStep(keys, editBind, db, id, posted, next, interleaved).response == RedirectToIndex
    requires !IsUnset(keys, id)
    ensures var rows := EditStep(keys, editBind, db, id, posted, next, interleaved).after.rows;
      && Details(rows, Some(id)) == MovieView(Bind(posted, editBind))
      && (UserId in editBind ==> rows[id].userId == posted.userId)
      && rows.Keys == db.rows.Keys
      && forall k :: k in rows && k != id ==> rows[k] == db.rows[k]
  {
    assert id in db.rows;
  }

  /**
   * MoviesController.Edit binds neither ImageName nor ImagePath, so a successful
   * edit nulls both; NewMoviesController.Edit stores the posted ones.
   */
  lemma EditImageFields<K>(keys: KeyPolicy<K>, db: Store<K>, id: K, posted: Movie<K>, next: K, interleaved: Option<Movie<K>>)
    requires !IsUnset(keys, id)
    ensures var s := EditStep(keys, MoviesEditBind, db, id, posted, next, interleaved);
      s.response == RedirectToIndex ==> s.after.rows[id].imageName.None? && s.after.rows[id].imagePath.None?
    ensures var s := EditStep(keys, NewMoviesEditBind, db, id, posted, next, interleaved);
      s.response == RedirectToIndex ==>
        s.after.rows[id].imageName == posted.imageName && s.after.rows[id].imagePath == posted.imagePath
  {
  }

  /**
   * Where the model's corrected price rule departs from the attributes as
   * written: an entry whose only fault is a price of 0.51..0.99 or 100.01..100.50
   * is shown again by Create, although the program would upload and store it.
   */
  lemma CreateRejectsRoundedPrices<K>(keys: KeyPolicy<K>, db: Store<K>, caller: Option<string>, posted: Movie<K>,
                                      file: Option<FormFile>, ticks: string, guid: string, upload: Upload, next: K)
    requires IsValidAsWritten(Bind(posted, CreateBind)) && !IsValid(Bind(posted, CreateBind))
    ensures 51 <= posted.priceCents < 100 || 10000 < posted.priceCents <= 10050
    ensures CreateStep(keys, db, caller, posted, file, ticks, guid, upload, next) == Step(FormView(Bind(posted, CreateBind)), db)
  {
    IsValidAsWrittenRule(Bind(posted, CreateBind));
  }

  /** The same departure in Edit: such an entry is shown again and the table is left as it was. */
  lemma EditRejectsRoundedPrices<K>(keys: KeyPolicy<K>, editBind: set<Column>, db: Store<K>, posted: Movie<K>,
                                    next: K, interleaved: Option<Movie<K>>)
    requires Price in editBind
    requires IsValidAsWritten(Bind(posted, editBind)) && !IsValid(Bind(posted, editBind))
    ensures 51 <= posted.priceCents < 100 || 10000 < posted.priceCents <= 10050
    ensures EditStep(keys, editBind, db, posted.id, posted, next, interleaved) == Step(FormView(Bind(posted, editBind)), db)
  {
    IsValidAsWrittenRule(Bind(posted, editBind));
  }

  /** Deleting the same key twice: the first call removes the row, the second throws and changes nothing. */
  lemma DeleteTwice<K>(db: Store<K>, id: K)
    requires id in db.rows
    ensures var first := DeleteConfirmedStep(db, id);
      var second := DeleteConfirmedStep(first.after, id);
      && first.response == RedirectToIndex && id !in first.after.rows
      && |first.after.rows| == |db.rows| - 1
      && second.response == Failed(ArgumentNull) && second.after == first.after
  {
    var first := DeleteConfirmedStep(db, id);
    assert first.after.rows.Keys == db.rows.Keys - {id};
  }

  /** Every row keyed by its Id and valid: Create keeps this. */
  lemma CreatePreservesTable<K>(keys: KeyPolicy<K>, db: Store<K>, caller: Option<string>, posted: Movie<K>,
                                file: Option<FormFile>, ticks: string, guid: string, upload: Upload, next: K)
    requires KeyedById(db.rows) && AllValid(db.rows)
    ensures var rows := CreateStep(keys, db, caller, posted, file, ticks, guid, upload, next).after.rows;
      KeyedById(rows) && AllValid(rows)
  {
    var s := CreateStep(keys, db, caller, posted, file, ticks, guid, upload, next);
    if s.response == RedirectToIndex {
      var key := InsertKey(keys, posted.id, next).value;
      var m := Bind(posted, CreateBind);
      ValidityIgnoresStamps(m, key, caller, Some(ImageNameFor(m.title)), Some(upload.uri));
    }
  }

  /** Edit keeps the rows keyed and valid, provided a row another request inserts meanwhile is too. */
  lemma EditPreservesTable<K>(keys: KeyPolicy<K>, editBind: set<Column>, db: Store<K>, id: K, posted: Movie<K>,
                              next: K, interleaved: Option<Movie<K>>)
    requires KeyedById(db.rows) && AllValid(db.rows)
    requires interleaved.Some? ==> IsValid(interleaved.value)
    ensures var rows := EditStep(keys, editBind, db, id, posted, next, interleaved).after.rows;
      KeyedById(rows) && AllValid(rows)
  {
    var s := EditStep(keys, editBind, db, id, posted, next, interleaved);
    if s.response == RedirectToIndex {
      var key := if IsUnset(keys, id) then next else id;
      ValidityIgnoresStamps(Bind(posted, editBind), key, posted.userId, Bind(posted, editBind).imageName, Bind(posted, editBind).imagePath);
    }
  }

  /** DeleteConfirmed keeps the rows keyed and valid. */
  lemma DeletePreservesTable<K>(db: Store<K>, id: K)
    requires KeyedById(db.rows) && AllValid(db.rows)
    ensures var rows := DeleteConfirmedStep(db, id).after.rows;
      KeyedById(rows) && AllValid(rows)
  {
  }

  /** The walk-through of a first Create: "Inception" becomes a row named "Inception_Img" owned by its creator. */
  lemma CreateInception(uri: string, caller: string, next: int)
    requires |uri| <= ImagePathWidth
    ensures var posted := Movie(0, Some("Inception"), Date(2010, 7, 16), Some("Sci-Fi"), 1250, Some("PG13"), true, None, None, None);
      var s := CreateStep(IdentityKey(0), Store(map[], {}), Some(caller), posted, Some(FormFile("poster.jpg")),
                          "637236", "0f8fad5b", Uploaded(uri), next);
      && s.response == RedirectToIndex
      && s.after.rows == map[next := Movie(next, Some("Inception"), Date(2010, 7, 16), Some("Sci-Fi"), 1250, Some("PG13"),
                                              true, Some(caller), Some("Inception_Img"), Some(uri))]
  {
    var posted := Movie(0, Some("Inception"), Date(2010, 7, 16), Some("Sci-Fi"), 1250, Some("PG13"), true, None, None, None);
    RuleExamples();
    assert ValidTitle(Some("Inception")) by { TitleRule(Some("Inception")); }
    assert Bind(posted, CreateBind) == posted;
    assert IsValid(posted);
    assert ImageNameFor(Some("Inception")) == "Inception_Img";
  }
}
