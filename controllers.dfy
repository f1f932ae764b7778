/**
 * The controllers' state-changing actions, step by step as the source performs
 * them: the entity object is filled in field by field, then added, updated or
 * removed, then saved. Each method is specified by the matching step function
 * of module Catalog, whose properties are proved there.
 */
module Controllers {
  import opened Optional
  import opened Movies
  import opened BlobNames
  import opened Catalog

  /**
   * A movie controller: `rows` is its table (_context.NewMovie or _context.Movie)
   * and `blobs` the names in its image container.
   */
  class CatalogController<K(==)> {
    const keys: KeyPolicy<K>
    const editBind: set<Column>
    var rows: map<K, Movie<K>>
    var blobs: set<string>

    constructor (keys: KeyPolicy<K>, editBind: set<Column>, rows: map<K, Movie<K>>, blobs: set<string>)
      ensures this.keys == keys && this.editBind == editBind
      ensures this.rows == rows && this.blobs == blobs
    {
      this.keys := keys;
      this.editBind := editBind;
      this.rows := rows;
      this.blobs := blobs;
    }

    function State(): Store<K>
      reads this
    {
      Store(rows, blobs)
    }

    /** _context.Add(m) followed by SaveChangesAsync. */
    method SaveAdded(m: Movie<K>, next: K) returns (response: Response<K>)
      modifies this`rows
      ensures Insert(keys, old(rows), m, next).Written? ==>
        response == RedirectToIndex && rows == Insert(keys, old(rows), m, next).rows
      ensures !Insert(keys, old(rows), m, next).Written? ==>
        response == Failed(StoreFailure) && rows == old(rows)
    {
      var key := InsertKey(keys, m.id, next);
      if key.None? || key.value in rows || !FitsColumns(m) {
        return Failed(StoreFailure);
      }
      rows := rows[key.value := m.(id := key.value)];
      response := RedirectToIndex;
    }

    /** Create (POST). */
    method Create(caller: Option<string>, posted: Movie<K>, file: Option<FormFile>,
                  ticks: string, guid: string, upload: Upload, next: K) returns (response: Response<K>)
      modifies this
      ensures Step(response, State()) == CreateStep(keys, old(State()), caller, posted, file, ticks, guid, upload, next)
    {
      var movie := Bind(posted, CreateBind);
      if !IsValid(movie) {
        return FormView(movie);
      }
      movie := movie.(userId := caller);
      if file.None? {
        return Failed(NullReference);
      }
      var blobName := GetRandomBlobName(file.value.fileName, ticks, guid);
      if upload.UploadFailed? {
        return Failed(UploadFailure);
      }
      blobs := blobs + {blobName};
      movie := movie.(imageName := Some(ImageNameFor(movie.title)), imagePath := Some(upload.uri));
      response := SaveAdded(movie, next);
    }

    /** Edit (POST). */
    method Edit(id: K, posted: Movie<K>, next: K, interleaved: Option<Movie<K>>) returns (response: Response<K>)
      modifies this`rows
      ensures Step(response, State()) == EditStep(keys, editBind, old(State()), id, posted, next, interleaved)
    {
      var movie := Bind(posted, editBind);
      if id != movie.id {
        return NotFound;
      }
      if !IsValid(movie) {
        return FormView(movie);
      }
      if IsUnset(keys, movie.id) {
        // Update tracks an entity whose generated key is unset as added
        response := SaveAdded(movie, next);
        return;
      }
      if movie.id !in rows {
        // the UPDATE matched no row: a DbUpdateConcurrencyException, then the existence check
        if interleaved.Some? {
          rows := rows[interleaved.value.id := interleaved.value];
        }
        if Exists(rows, movie.id) {
          return Failed(ConcurrencyConflict);
        }
        return NotFound;
      }
      if !FitsColumns(movie) {
        return Failed(StoreFailure);
      }
      rows := rows[movie.id := movie];
      response := RedirectToIndex;
    }

    /** DeleteConfirmed (POST): Find, Remove, SaveChangesAsync. */
    method DeleteConfirmed(id: K) returns (response: Response<K>)
      modifies this`rows
      ensures Step(response, State()) == DeleteConfirmedStep(old(State()), id)
    {
      if id !in rows {
        // Find returned null and Remove(null) throws
        return Failed(ArgumentNull);
      }
      rows := rows - {id};
      response := RedirectToIndex;
    }
  }

  /** NewMoviesController: int keys from an identity column (unset value 0); Edit binds every column. */
  method NewMoviesController(rows: map<int, Movie<int>>, blobs: set<string>) returns (c: CatalogController<int>)
    ensures fresh(c) && c.keys == IdentityKey(0) && c.editBind == NewMoviesEditBind
    ensures c.rows == rows && c.blobs == blobs
  {
    c := new CatalogController(IdentityKey(0), NewMoviesEditBind, rows, blobs);
  }

  /** MoviesController: posted string keys; Edit binds neither ImageName nor ImagePath. */
  method MoviesController(rows: map<string, Movie<string>>, blobs: set<string>) returns (c: CatalogController<string>)
    ensures fresh(c) && c.keys == PostedKey && c.editBind == MoviesEditBind
    ensures c.rows == rows && c.blobs == blobs
  {
    c := new CatalogController(PostedKey, MoviesEditBind, rows, blobs);
  }
}
