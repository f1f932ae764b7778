/**
 * The catalogue entry of MovieFullApp/Models/NewMovie.cs and the data-annotation
 * rules that decide whether ModelState is valid before a controller persists it.
 *
 * Strings are sequences of UTF-16 code units (`char`); a C# string property that
 * may be null is an `Option<string>`. The price is held in cents, because its
 * column is decimal(18,2).
 */
module Movies {
  import opened Optional

  /** A calendar date. The release date carries no validation rule. */
  datatype Date = Date(year: int, month: int, day: int)

  /** DateTime's default value, 0001-01-01: what an unbound date becomes. */
  const MinDate: Date := Date(1, 1, 1)

  /** One catalogue entry; K is the key type (int for NewMovie, string for Movie). */
  datatype Movie<K> = Movie(
    id: K,
    title: Option<string>,
    releaseDate: Date,
    genre: Option<string>,
    priceCents: int,
    rating: Option<string>,
    isPublic: bool,
    userId: Option<string>,
    imageName: Option<string>,
    imagePath: Option<string>)

  /** The properties a [Bind] list can name, apart from the key, which every list names. */
  datatype Column =
    | Title | ReleaseDate | Genre | Price | Rating | IsPublic | UserId | ImageName | ImagePath

  /**
   * Model binding restricted to a [Bind] list: a listed property takes the posted
   * value, any other one keeps the default of its CLR type (null, 0, false, MinValue).
   */
  function Bind<K>(posted: Movie<K>, fields: set<Column>): Movie<K>
  {
    Movie(
      posted.id,
      if Title in fields then posted.title else None,
      if ReleaseDate in fields then posted.releaseDate else MinDate,
      if Genre in fields then posted.genre else None,
      if Price in fields then posted.priceCents else 0,
      if Rating in fields then posted.rating else None,
      if IsPublic in fields then posted.isPublic else false,
      if UserId in fields then posted.userId else None,
      if ImageName in fields then posted.imageName else None,
      if ImagePath in fields then posted.imagePath else None)
  }

  // ---------------------------------------------------------------------------
  // Character classes of the two regular expressions.

  /** .NET's `\s` (the same set as char.IsWhiteSpace): \t..\r, U+0085 and the Unicode separators. */
  predicate IsWhiteSpace(c: char)
  {
    || c == ' ' || '\t' <= c <= '\r' || c == '\U{0085}' || c == '\U{00A0}' || c == '\U{1680}'
    || '\U{2000}' <= c <= '\U{200A}' || c == '\U{2028}' || c == '\U{2029}' || c == '\U{202F}'
    || c == '\U{205F}' || c == '\U{3000}'
  }

  predicate IsUpper(c: char) { 'A' <= c <= 'Z' }

  predicate IsLetter(c: char) { IsUpper(c) || 'a' <= c <= 'z' }

  predicate IsDigit(c: char) { '0' <= c <= '9' }

  /**
   * The trailing class of the Genre pattern, [a-zA-Z"'\s-], and, when `digits`
   * holds, of the Rating pattern, [a-zA-Z0-9"'\s-].
   */
  predicate IsPatternChar(c: char, digits: bool)
  {
    IsLetter(c) || c == '"' || c == '\'' || IsWhiteSpace(c) || c == '-' || (digits && IsDigit(c))
  }

  /** The first n characters of s are upper-case letters: the `[A-Z]+` run. */
  predicate UpperRun(s: string, n: nat)
    requires n <= |s|
  {
    forall i :: 0 <= i < n ==> IsUpper(s[i])
  }

  /**
   * s matches ^[A-Z]+[...]*$ as a whole: a non-empty run of capitals, then
   * characters of the trailing class.
   */
  predicate MatchesPattern(s: string, digits: bool)
  {
    exists n :: 1 <= n <= |s| && UpperRun(s, n) && (forall i :: n <= i < |s| ==> IsPatternChar(s[i], digits))
  }

  // ---------------------------------------------------------------------------
  // The validation attributes, as System.ComponentModel.DataAnnotations evaluates them.

  /** [Required]: not null, and not empty or all white space. */
  predicate Required(s: Option<string>)
  {
    s.Some? && exists i :: 0 <= i < |s.value| && !IsWhiteSpace(s.value[i])
  }

  /** [StringLength(max, MinimumLength = min)]: null passes. */
  predicate StringLength(s: Option<string>, min: nat, max: nat)
  {
    s.None? || min <= |s.value| <= max
  }

  /** [RegularExpression]: null and "" pass, any other string must match as a whole. */
  predicate RegularExpression(s: Option<string>, digits: bool)
  {
    s.None? || s.value == "" || MatchesPattern(s.value, digits)
  }

  predicate ValidTitle(title: Option<string>)
  {
    Required(title) && StringLength(title, 5, 60)
  }

  predicate ValidGenre(genre: Option<string>)
  {
    Required(genre) && RegularExpression(genre, false) && StringLength(genre, 0, 30)
  }

  predicate ValidRating(rating: Option<string>)
  {
    StringLength(rating, 0, 5) && RegularExpression(rating, true) && Required(rating)
  }

  /**
   * decimal.Round(cents / 100) with midpoint-to-even rounding, which is what
   * Convert.ToInt32 does to a decimal.
   */
  function RoundToEven(cents: int): (units: int)
    ensures 100 * units - 50 <= cents <= 100 * units + 50
    ensures cents % 100 == 50 ==> units % 2 == 0
  {
    var q, r := cents / 100, cents % 100;
    if r < 50 then q
    else if r > 50 then q + 1
    else if q % 2 == 0 then q else q + 1
  }

  /**
   * [Range(1, 100)] as written: the attribute's operands are ints, so it first
   * converts the decimal price to an int and compares that.
   */
  predicate RangeAsWritten(cents: int)
  {
    1 <= RoundToEven(cents) <= 100
  }

  /** The evidently intended price rule: 1.00 <= price <= 100.00. */
  predicate ValidPrice(cents: int)
  {
    100 <= cents <= 10000
  }

  /**
   * ModelState.IsValid for a bound entry, with the price rule corrected to
   * 1.00..100.00: every annotated property passes. Whatever it accepts, the
   * attributes as written accept too.
   */
  predicate IsValid<K>(m: Movie<K>): (v: bool)
    ensures v ==> IsValidAsWritten(m)
  {
    ValidPriceRule(m.priceCents);
    ValidTitle(m.title) && ValidGenre(m.genre) && ValidPrice(m.priceCents) && ValidRating(m.rating)
  }

  /** ModelState.IsValid as the attributes are written, with [Range(1, 100)] comparing the rounded price. */
  predicate IsValidAsWritten<K>(m: Movie<K>)
  {
    ValidTitle(m.title) && ValidGenre(m.genre) && RangeAsWritten(m.priceCents) && ValidRating(m.rating)
  }

  // ---------------------------------------------------------------------------
  // Column widths the database enforces when a row is written.

  const ImageNameWidth: nat := 50
  const ImagePathWidth: nat := 250

  predicate FitsWidth(s: Option<string>, width: nat)
  {
    s.None? || |s.value| <= width
  }

  /** ImageName is varchar(50) and ImagePath varchar(250); neither is validated before the write. */
  predicate FitsColumns<K>(m: Movie<K>)
  {
    FitsWidth(m.imageName, ImageNameWidth) && FitsWidth(m.imagePath, ImagePathWidth)
  }

  // ---------------------------------------------------------------------------
  // What the rules mean.

  /** The regular expression reads as: an upper-case first character, then the trailing class. */
  lemma PatternRule(s: string, digits: bool)
    ensures MatchesPattern(s, digits) <==>
      |s| >= 1 && IsUpper(s[0]) && forall i :: 1 <= i < |s| ==> IsPatternChar(s[i], digits)
  {
    if MatchesPattern(s, digits) {
      var n :| 1 <= n <= |s| && UpperRun(s, n) && (forall i :: n <= i < |s| ==> IsPatternChar(s[i], digits));
      forall i | 1 <= i < |s| ensures IsPatternChar(s[i], digits) {
        if i < n {
          assert IsUpper(s[i]);
        }
      }
    }
    if |s| >= 1 && IsUpper(s[0]) && forall i :: 1 <= i < |s| ==> IsPatternChar(s[i], digits) {
      assert UpperRun(s, 1);
    }
  }

  /**
   * A valid title is present and has 5 to 60 characters; one of that length whose
   * first character is not white space is valid.
   */
  lemma TitleRule(title: Option<string>)
    ensures ValidTitle(title) ==> title.Some? && 5 <= |title.value| <= 60
    ensures title.Some? && 5 <= |title.value| <= 60 && !IsWhiteSpace(title.value[0]) ==> ValidTitle(title)
  {
  }

  /** Five spaces satisfy the length rule but not [Required]. */
  lemma BlankTitleRejected()
    ensures StringLength(Some("     "), 5, 60) && !ValidTitle(Some("     "))
  {
  }

  /**
   * A valid genre is present, has 1 to 30 characters, starts with A-Z and continues
   * with letters, quotes, apostrophes, white space or hyphens.
   */
  lemma GenreRule(genre: Option<string>)
    ensures ValidGenre(genre) <==>
      && genre.Some? && 1 <= |genre.value| <= 30 && IsUpper(genre.value[0])
      && forall i :: 1 <= i < |genre.value| ==> IsPatternChar(genre.value[i], false)
  {
    if genre.Some? {
      PatternRule(genre.value, false);
      if |genre.value| >= 1 && IsUpper(genre.value[0]) {
        assert !IsWhiteSpace(genre.value[0]);
      }
    }
  }

  /** A valid rating is present, has 1 to 5 characters, starts with A-Z and may also use digits after that. */
  lemma RatingRule(rating: Option<string>)
    ensures ValidRating(rating) <==>
      && rating.Some? && 1 <= |rating.value| <= 5 && IsUpper(rating.value[0])
      && forall i :: 1 <= i < |rating.value| ==> IsPatternChar(rating.value[i], true)
  {
    if rating.Some? {
      PatternRule(rating.value, true);
      if |rating.value| >= 1 && IsUpper(rating.value[0]) {
        assert !IsWhiteSpace(rating.value[0]);
      }
    }
  }

  /** "PG13" is a valid rating and "Sci-Fi" a valid genre; "pg" and "PG-13!" are not ratings. */
  lemma RuleExamples()
    ensures ValidRating(Some("PG13")) && ValidGenre(Some("Sci-Fi"))
    ensures !ValidRating(Some("pg")) && !ValidRating(Some("PG-13!"))
  {
    RatingRule(Some("PG13"));
    GenreRule(Some("Sci-Fi"));
    RatingRule(Some("pg"));
    RatingRule(Some("PG-13!"));
  }

  /** As written, [Range(1, 100)] admits exactly the prices 0.51 to 100.50. */
  lemma RangeAsWrittenBounds(cents: int)
    ensures RangeAsWritten(cents) <==> 51 <= cents <= 10050
  {
    var q, r := cents / 100, cents % 100;
    assert cents == 100 * q + r;
  }

  /** The discrepancy: 0.51 and 100.50 pass the attribute but lie outside 1..100. */
  lemma RangeAsWrittenAdmitsOutOfRange()
    ensures RangeAsWritten(51) && !ValidPrice(51)
    ensures RangeAsWritten(10050) && !ValidPrice(10050)
  {
    RangeAsWrittenBounds(51);
    RangeAsWrittenBounds(10050);
  }

  /**
   * The corrected rule is the rule as written less the two bands that rounding
   * lets through, 0.51..0.99 and 100.01..100.50.
   */
  lemma ValidPriceRule(cents: int)
    ensures ValidPrice(cents) <==> RangeAsWritten(cents) && !(51 <= cents < 100) && !(10000 < cents <= 10050)
  {
    RangeAsWrittenBounds(cents);
  }

  /**
   * The attributes as written accept exactly the entries the corrected rule
   * accepts, plus those whose only fault is a price in one of the two bands.
   */
  lemma IsValidAsWrittenRule<K>(m: Movie<K>)
    ensures IsValidAsWritten(m) <==>
      || IsValid(m)
      || (&& ValidTitle(m.title) && ValidGenre(m.genre) && ValidRating(m.rating)
          && (51 <= m.priceCents < 100 || 10000 < m.priceCents <= 10050))
  {
    ValidPriceRule(m.priceCents);
  }

  /** Validity does not look at the key, the owner or the image fields, which Create and Edit overwrite. */
  lemma ValidityIgnoresStamps<K>(m: Movie<K>, id: K, userId: Option<string>, name: Option<string>, path: Option<string>)
    ensures IsValid(m.(id := id, userId := userId, imageName := name, imagePath := path)) == IsValid(m)
  {
  }
}
