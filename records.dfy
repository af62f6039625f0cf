/**
 * The FamilyMember record (FTapp.py:11-25): eleven non-key columns stored
 * under an integer primary key, one of them a self-referencing parent_id.
 *
 * Every column value reaches the table from a submitted form as text.  The
 * parent_id and id columns are INTEGER columns of an SQLite table, so the
 * storage layer turns text that reads as a decimal integer into that integer.
 * Coerce below is that conversion for decimal integer numerals; any other
 * text (the empty string included) it keeps as text, which is what SQLite
 * does for text that is not a numeric literal at all.  It is what separates
 * the add handler, which stores the submitted parent_id as it is, from the
 * edit handler, which stores NULL for an empty one.
 */
module Records {
  import opened Wrappers

  /** The value held by the parent_id column. */
  datatype ParentColumn = Null | Key(id: int) | Text(raw: string)

  /** One row of the family_member table, without its key. */
  datatype Member = Member(
    firstName: string,
    middleName: Option<string>,
    lastName: string,
    suffix: Option<string>,
    birthDate: Option<string>,
    parentId: ParentColumn,
    spouse: Option<string>,
    weddingAnniversary: Option<string>,
    bio: Option<string>,
    favoriteMemories: Option<string>,
    imageFile: Option<string>)

  /** The whole table, keyed by id. */
  type Table = map<int, Member>

  /** A row as a query returns it: the key and the record. */
  datatype Row = Row(id: int, member: Member)

  // ---------------------------------------------------------------------
  // Decimal numerals: what the INTEGER columns accept as a number.
  // ---------------------------------------------------------------------

  predicate IsDigit(c: char) {
    '0' <= c <= '9'
  }

  predicate AllDigits(s: string) {
    forall i :: 0 <= i < |s| ==> IsDigit(s[i])
  }

  /** The value of a string of decimal digits, most significant first. */
  function DigitsValue(s: string): nat
    requires AllDigits(s)
  {
    if s == [] then 0
    else 10 * DigitsValue(s[..|s| - 1]) + (s[|s| - 1] as int - '0' as int)
  }

  /** A decimal integer literal: digits, optionally after a minus sign. */
  predicate IsNumeral(s: string) {
    || (|s| > 0 && AllDigits(s))
    || (|s| > 1 && s[0] == '-' && AllDigits(s[1..]))
  }

  /**
   * What an INTEGER column keeps of submitted text: the integer when the
   * text is a decimal integer numeral, the text itself otherwise.  Text never
   * becomes NULL.  Real literals ("5.0", "3e2", "2.5"), which SQLite turns
   * into an integer or a REAL, are kept as text here.
   */
  function Coerce(raw: string): (c: ParentColumn)
    ensures c != Null
    ensures c.Text? ==> c.raw == raw && !IsNumeral(raw)
    ensures !IsNumeral(raw) ==> c == Text(raw)
  {
    if |raw| > 0 && AllDigits(raw) then Key(DigitsValue(raw))
    else if |raw| > 1 && raw[0] == '-' && AllDigits(raw[1..]) then Key(0 - DigitsValue(raw[1..]) as int)
    else Text(raw)
  }

  /** The canonical decimal rendering of a natural number. */
  function NatNumeral(n: nat): (s: string)
    ensures |s| > 0 && AllDigits(s)
    ensures n > 0 ==> s[0] != '0'
  {
    if n < 10 then ['0' + n as char]
    else NatNumeral(n / 10) + ['0' + (n % 10) as char]
  }

  /** The canonical decimal rendering of an integer, as a form would submit a key. */
  function Numeral(n: int): (s: string)
    ensures IsNumeral(s)
  {
    if n < 0 then "-" + NatNumeral(-n) else NatNumeral(n)
  }

  lemma {:induction false} NatNumeralValue(n: nat)
    ensures DigitsValue(NatNumeral(n)) == n
  {
    if n >= 10 {
      NatNumeralValue(n / 10);
      var s := NatNumeral(n);
      assert s[..|s| - 1] == NatNumeral(n / 10);
    }
  }

  /** A key rendered as a numeral and submitted is stored as that key again. */
  lemma CoerceNumeral(n: int)
    ensures Coerce(Numeral(n)) == Key(n)
  {
    if n < 0 {
      NatNumeralValue(-n);
      assert Numeral(n)[1..] == NatNumeral(-n);
    } else {
      NatNumeralValue(n);
    }
  }

  /**
   * FamilyMember.query.get(raw): the key the submitted text denotes, when a
   * row has it.
   */
  function Lookup(t: Table, raw: string): (r: Option<int>)
    ensures r.Some? ==> r.value in t && Coerce(raw) == Key(r.value)
    ensures r.None? ==> forall k :: k in t ==> Coerce(raw) != Key(k)
  {
    match Coerce(raw)
    case Key(k) => if k in t then Some(k) else None
    case _ => None
  }

  // ---------------------------------------------------------------------
  // Uploaded photos.
  // ---------------------------------------------------------------------

  /** A file part of a multipart request; only its client-side name matters here. */
  datatype Upload = Upload(filename: string)

  /** An upload counts as present (is truthy) exactly when it has a file name. */
  predicate Present(u: Upload) {
    u.filename != ""
  }

  /** app.config['UPLOAD_FOLDER'] */
  const UploadFolder: string := "static/uploads"

  /**
   * os.path.join of two POSIX path components: an absolute second component
   * replaces the first, otherwise a separator is added unless one is there.
   */
  function JoinPath(folder: string, name: string): (p: string)
    ensures |p| >= |name| && p[|p| - |name|..] == name
    ensures |name| > 0 && name[0] == '/' ==> p == name
    ensures !(|name| > 0 && name[0] == '/') ==> |p| >= |folder| && p[..|folder|] == folder
  {
    if |name| > 0 && name[0] == '/' then name
    else if folder == [] || folder[|folder| - 1] == '/' then folder + name
    else folder + "/" + name
  }

  /** Where a present upload is saved and what image_file records for it. */
  function StoredPath(u: Upload): string {
    JoinPath(UploadFolder, u.filename)
  }
}
