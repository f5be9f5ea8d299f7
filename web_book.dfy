/** The web front end's `Book` model and the validation rules its data annotations declare:
    Title and Author are required and length-limited, PublicationYear is range-limited, and
    Id is unconstrained. */
module WebModels {
  import opened Wrappers

  /** The form-bound book. `title` and `author` are nullable strings. */
  datatype Book = Book(id: int, title: Option<string>, author: Option<string>, publicationYear: int)

  const TitleMaxLength: nat := 200
  const AuthorMaxLength: nat := 100
  const MinLength: nat := 1
  const MinYear: int := 1
  const MaxYear: int := 9999

  /** The characters .NET's `char.IsWhiteSpace` accepts: the controls U+0009..U+000D,
      U+0085, and the space, line and paragraph separators. */
  predicate IsWhiteSpace(c: char)
  {
    || ('\t' <= c <= '\r')
    || c == ' '
    || c == '\U{0085}'
    || c == '\U{00A0}'
    || c == '\U{1680}'
    || ('\U{2000}' <= c <= '\U{200A}')
    || c == '\U{2028}'
    || c == '\U{2029}'
    || c == '\U{202F}'
    || c == '\U{205F}'
    || c == '\U{3000}'
  }

  /** A string made only of white space (the empty string included). */
  predicate IsBlank(s: string)
  {
    forall i :: 0 <= i < |s| ==> IsWhiteSpace(s[i])
  }

  /** The length .NET reports for a string: UTF-16 code units, so a character outside the
      Basic Multilingual Plane counts twice. */
  function Utf16Length(s: string): nat
  {
    if s == [] then 0
    else Utf16Length(s[..|s| - 1]) + (if s[|s| - 1] as int >= 0x1_0000 then 2 else 1)
  }

  /** `[Required]` on a string: not null, and not empty or white space only. */
  predicate Required(v: Option<string>)
    ensures v.None? ==> !Required(v)
    ensures v.Some? && IsBlank(v.value) ==> !Required(v)
    ensures Required(v) ==> v.Some? && |v.value| >= 1 && Utf16Length(v.value) >= 1
  {
    v.Some? && !IsBlank(v.value)
  }

  /** `[StringLength(max, MinimumLength = min)]`: a null string passes; otherwise its
      UTF-16 length lies in [min, max]. */
  predicate StringLength(v: Option<string>, min: nat, max: nat)
    ensures v.None? ==> StringLength(v, min, max)
    ensures StringLength(v, min, max) && v.Some? ==> |v.value| <= max && min <= 2 * |v.value|
  {
    v.None? || (Utf16LengthBounds(v.value); min <= Utf16Length(v.value) <= max)
  }

  /** `[Range(min, max)]` on an int: inclusive at both ends. */
  predicate InRange(v: int, min: int, max: int)
    ensures InRange(v, min, max) ==> min <= max
    ensures min <= max && (v == min || v == max) ==> InRange(v, min, max)
    ensures v < min || max < v ==> !InRange(v, min, max)
  {
    min <= v <= max
  }

  predicate TitleValid(b: Book)
  {
    Required(b.title) && StringLength(b.title, MinLength, TitleMaxLength)
  }

  predicate AuthorValid(b: Book)
  {
    Required(b.author) && StringLength(b.author, MinLength, AuthorMaxLength)
  }

  predicate YearValid(b: Book)
  {
    InRange(b.publicationYear, MinYear, MaxYear)
  }

  /** A book passes validation when every annotated property does; `Id` carries none. */
  predicate IsValid(b: Book)
    ensures IsValid(b) ==> && b.title.Some? && !IsBlank(b.title.value) && 1 <= |b.title.value| <= TitleMaxLength
                           && b.author.Some? && !IsBlank(b.author.value) && 1 <= |b.author.value| <= AuthorMaxLength
                           && MinYear <= b.publicationYear <= MaxYear
  {
    TitleValid(b) && AuthorValid(b) && YearValid(b)
  }

  /** Between one and two code units per character. */
  lemma {:induction false} Utf16LengthBounds(s: string)
    ensures |s| <= Utf16Length(s) <= 2 * |s|
    ensures (forall i :: 0 <= i < |s| ==> s[i] as int < 0x1_0000) ==> Utf16Length(s) == |s|
  {
    if s != [] {
      Utf16LengthBounds(s[..|s| - 1]);
    }
  }

  /** A required string is never empty, so `MinimumLength = 1` adds nothing to `[Required]`. */
  lemma RequiredImpliesMinimumLength(v: Option<string>, max: nat)
    requires Required(v)
    ensures StringLength(v, MinLength, max) <==> Utf16Length(v.value) <= max
  {
    Utf16LengthBounds(v.value);
  }

  /** What a valid title is, in characters: present, not blank, and between 1 and 200
      characters long (at most 100 when every character lies outside the BMP). */
  lemma ValidTitleShape(b: Book)
    requires TitleValid(b)
    ensures b.title.Some? && !IsBlank(b.title.value)
    ensures 1 <= |b.title.value| <= TitleMaxLength
  {
    Utf16LengthBounds(b.title.value);
  }

  /** What a valid author is, in characters: present, not blank, between 1 and 100 long. */
  lemma ValidAuthorShape(b: Book)
    requires AuthorValid(b)
    ensures b.author.Some? && !IsBlank(b.author.value)
    ensures 1 <= |b.author.value| <= AuthorMaxLength
  {
    Utf16LengthBounds(b.author.value);
  }

  /** For text inside the Basic Multilingual Plane the title rule is exactly: present, not
      blank, and 1 to 200 characters. */
  lemma TitleValidInBmp(b: Book)
    requires b.title.Some?
    requires forall i :: 0 <= i < |b.title.value| ==> b.title.value[i] as int < 0x1_0000
    ensures TitleValid(b) <==> !IsBlank(b.title.value) && 1 <= |b.title.value| <= TitleMaxLength
  {
    Utf16LengthBounds(b.title.value);
  }

  /** For text inside the Basic Multilingual Plane the author rule is exactly: present, not
      blank, and 1 to 100 characters. */
  lemma AuthorValidInBmp(b: Book)
    requires b.author.Some?
    requires forall i :: 0 <= i < |b.author.value| ==> b.author.value[i] as int < 0x1_0000
    ensures AuthorValid(b) <==> !IsBlank(b.author.value) && 1 <= |b.author.value| <= AuthorMaxLength
  {
    Utf16LengthBounds(b.author.value);
  }

  /** A null or blank title, or a null or blank author, makes the book invalid. */
  lemma MissingFieldInvalid(b: Book)
    requires b.title.None? || IsBlank(b.title.value) || b.author.None? || IsBlank(b.author.value)
    ensures !IsValid(b)
  {
  }

  /** Validity does not depend on the id. */
  lemma IdUnconstrained(b: Book, id: int)
    ensures IsValid(b.(id := id)) <==> IsValid(b)
  {
  }

  /** A title of 150 characters from outside the BMP is 300 code units long and fails the
      200 limit, although it has fewer than 200 characters. */
  lemma AstralTitleCountsTwice(b: Book)
    requires b.title.Some? && |b.title.value| == 150
    requires forall i :: 0 <= i < |b.title.value| ==> b.title.value[i] as int >= 0x1_0000
    ensures !TitleValid(b)
  {
    AllAstral(b.title.value);
  }

  /** Every character outside the BMP: exactly two code units each. */
  lemma {:induction false} AllAstral(s: string)
    requires forall i :: 0 <= i < |s| ==> s[i] as int >= 0x1_0000
    ensures Utf16Length(s) == 2 * |s|
  {
    if s != [] {
      AllAstral(s[..|s| - 1]);
    }
  }
}
