/**
 The text fed to SHA-256 for an episode action, and why it can be read back.

 The text is `a=<action>;` followed by `s=<started>;`, `p=<position>;` and `t=<total>;` for the
 values that are present. The digest itself stays an arbitrary function `sha`.
 */
module EpisodeHash {
  import opened Prelude

  /** The hashed columns of an episode action. */
  datatype Content = Content(action: string, started: Option<int>, position: Option<int>, total: Option<int>)

  const DIGITS := "0123456789"

  function Digits(n: nat): string {
    if n < 10 then [DIGITS[n]] else Digits(n / 10) + [DIGITS[n % 10]]
  }

  /** The `%d` form of an integer. */
  function Decimal(n: int): string {
    if n < 0 then "-" + Digits(-n) else Digits(n)
  }

  function Field(tag: char, value: Option<int>): string {
    match value
    case None => ""
    case Some(n) => [tag, '='] + Decimal(n) + ";"
  }

  function Fields(c: Content): string {
    Field('s', c.started) + (Field('p', c.position) + Field('t', c.total))
  }

  function Text(c: Content): string {
    "a=" + (c.action + (";" + Fields(c)))
  }

  predicate HasValue(c: Content) {
    c.started.Some? || c.position.Some? || c.total.Some?
  }

  function Hash(sha: string -> string, c: Content): string {
    sha(Text(c))
  }

  function Tagged(tag: string, value: Option<int>): string {
    match value
    case None => ""
    case Some(n) => tag + Decimal(n) + ";"
  }

  /** The format, field by field: action, started, position, total, each behind its own letter. */
  lemma TextFormat(c: Content)
    ensures Text(c)
         == "a=" + c.action + ";" + Tagged("s=", c.started) + Tagged("p=", c.position) + Tagged("t=", c.total)
  {
    assert Field('s', c.started) == Tagged("s=", c.started);
    assert Field('p', c.position) == Tagged("p=", c.position);
    assert Field('t', c.total) == Tagged("t=", c.total);
  }

  /** One text written out. */
  lemma SampleText()
    ensures Text(Content("play", Some(-5), Some(120), Some(0))) == "a=play;s=-5;p=120;t=0;"
    ensures Text(Content("new", None, None, None)) == "a=new;"
  {
    assert Digits(12) == "12" && Digits(120) == "120";
  }

  // A reader for the text, written from the format alone.

  predicate IsDigit(c: char) { '0' <= c <= '9' }

  /** Reads as many digits as there are, continuing from the value read so far. */
  function ReadDigits(s: string, soFar: nat): (nat, string) {
    if s == "" || !IsDigit(s[0]) then (soFar, s)
    else ReadDigits(s[1..], 10 * soFar + (s[0] as int - '0' as int))
  }

  function ReadInt(s: string): (int, string) {
    var negative := s != "" && s[0] == '-';
    var r := ReadDigits(if negative then s[1..] else s, 0);
    var n: int := r.0;
    (if negative then -n else n, r.1)
  }

  /** Reads an optional field; None when what follows the number is not a semicolon. */
  function ReadField(tag: char, s: string): Option<(Option<int>, string)> {
    if |s| < 2 || s[0] != tag || s[1] != '=' then Some((None, s))
    else
      var (n, rest) := ReadInt(s[2..]);
      if rest != "" && rest[0] == ';' then Some((Some(n), rest[1..])) else None
  }

  function ReadFields(action: string, s: string): Option<Content> {
    match ReadField('s', s)
    case None => None
    case Some((started, s1)) =>
      match ReadField('p', s1)
      case None => None
      case Some((position, s2)) =>
        match ReadField('t', s2)
        case None => None
        case Some((total, s3)) => if s3 == "" then Some(Content(action, started, position, total)) else None
  }

  /** The text up to the first semicolon, and what follows it. */
  function SplitAtSemicolon(s: string): Option<(string, string)> {
    if s == "" then None
    else if s[0] == ';' then Some(("", s[1..]))
    else
      match SplitAtSemicolon(s[1..])
      case None => None
      case Some((head, tail)) => Some(([s[0]] + head, tail))
  }

  function Read(s: string): Option<Content> {
    if |s| < 2 || s[..2] != "a=" then None
    else
      match SplitAtSemicolon(s[2..])
      case None => None
      case Some((action, rest)) => ReadFields(action, rest)
  }

  // Reading undoes printing.

  lemma {:induction false} ReadDigitsOfDigits(n: nat, rest: string)
    ensures ReadDigits(Digits(n) + rest, 0) == ReadDigits(rest, n)
  {
    if n < 10 {
      DigitReadBack(n, rest, 0);
    } else {
      var last := [DIGITS[n % 10]];
      ReadDigitsOfDigits(n / 10, last + rest);
      assert Digits(n) + rest == Digits(n / 10) + (last + rest);
      DigitReadBack(n % 10, rest, n / 10);
    }
  }

  lemma DigitReadBack(d: nat, rest: string, soFar: nat)
    requires d < 10
    ensures ReadDigits([DIGITS[d]] + rest, soFar) == ReadDigits(rest, 10 * soFar + d)
  {
  }

  lemma {:induction false} DigitsStart(n: nat)
    ensures Digits(n) != "" && IsDigit(Digits(n)[0])
  {
    if n >= 10 {
      DigitsStart(n / 10);
    }
  }

  lemma ReadIntOfDecimal(n: int, rest: string)
    ensures ReadInt(Decimal(n) + (";" + rest)) == (n, ";" + rest)
  {
    hide Digits, ReadDigits;
    var m := if n < 0 then -n else n;
    var tail := ";" + rest;
    ReadDigitsStopAtSemicolon(m, rest);
    if n < 0 {
      var s := Decimal(n) + tail;
      assert s == "-" + (Digits(m) + tail);
      assert s[1..] == Digits(m) + tail;
    } else {
      DigitsStart(m);
      assert (Digits(m) + tail)[0] == Digits(m)[0];
    }
  }

  lemma ReadDigitsStopAtSemicolon(n: nat, rest: string)
    ensures ReadDigits(Digits(n) + (";" + rest), 0) == (n, ";" + rest)
  {
    ReadDigitsOfDigits(n, ";" + rest);
  }

  lemma ReadFieldOfField(tag: char, value: Option<int>, rest: string)
    requires rest == "" || rest[0] != tag
    ensures ReadField(tag, Field(tag, value) + rest) == Some((value, rest))
  {
    match value
    case None => assert Field(tag, value) + rest == rest;
    case Some(n) =>
      var s := Field(tag, value) + rest;
      assert s[2..] == Decimal(n) + (";" + rest);
      ReadIntOfDecimal(n, rest);
      assert (";" + rest)[1..] == rest;
  }

  lemma ReadFieldsOfFields(c: Content)
    ensures ReadFields(c.action, Fields(c)) == Some(c)
  {
    var pt, t := Field('p', c.position) + Field('t', c.total), Field('t', c.total);
    assert c.position.Some? ==> pt[0] == 'p';
    assert c.position.None? ==> pt == t;
    ReadFieldOfField('s', c.started, pt);
    ReadFieldOfField('p', c.position, t);
    ReadFieldOfField('t', c.total, "");
    assert t + "" == t;
  }

  lemma {:induction false} SplitOfAction(action: string, rest: string)
    requires ';' !in action
    ensures SplitAtSemicolon(action + (";" + rest)) == Some((action, rest))
  {
    var s := action + (";" + rest);
    if action == "" {
      assert s[1..] == rest;
    } else {
      SplitOfAction(action[1..], rest);
      assert s[1..] == action[1..] + (";" + rest);
      assert action == [action[0]] + action[1..];
    }
  }

  lemma {:induction false} SplitHasNoSemicolon(s: string)
    ensures SplitAtSemicolon(s).Some? ==> ';' !in SplitAtSemicolon(s).value.0
  {
    if s != "" && s[0] != ';' {
      SplitHasNoSemicolon(s[1..]);
    }
  }

  /** The text is undone by the reader exactly when the action holds no semicolon. */
  lemma ReadBackIffNoSemicolon(c: Content)
    ensures Read(Text(c)) == Some(c) <==> ';' !in c.action
  {
    var text := Text(c);
    assert text[..2] == "a=" && text[2..] == c.action + (";" + Fields(c));
    if ';' !in c.action {
      SplitOfAction(c.action, Fields(c));
      ReadFieldsOfFields(c);
    } else {
      SplitHasNoSemicolon(text[2..]);
    }
  }

  /** Hence two semicolon-free actions with equal text are equal, an absent value differing from zero. */
  lemma TextInjective(c: Content, d: Content)
    requires ';' !in c.action && ';' !in d.action
    requires Text(c) == Text(d)
    ensures c == d
  {
    ReadBackIffNoSemicolon(c);
    ReadBackIffNoSemicolon(d);
  }

  /** Every content with a value shares its text with one whose action spells the values out. */
  lemma ValuesHideInAction(c: Content) returns (d: Content)
    requires HasValue(c)
    ensures !HasValue(d) && d != c && Text(d) == Text(c)
  {
    var fields := Fields(c);
    FieldsEndInSemicolon(c);
    var front := fields[..|fields| - 1];
    d := Content(c.action + (";" + front), None, None, None);
    assert fields == front + ";";
    assert |d.action| > |c.action|;
    NoFields(d);
    assert (c.action + (";" + front)) + ";" == c.action + (";" + (front + ";"));
  }

  lemma NoFields(c: Content)
    requires !HasValue(c)
    ensures Text(c) == "a=" + (c.action + ";")
  {
  }

  lemma FieldsEndInSemicolon(c: Content)
    requires HasValue(c)
    ensures Fields(c) != "" && Fields(c)[|Fields(c)| - 1] == ';'
  {
  }

  // When exactly a text is ambiguous.

  /** The string is what `Fields` prints for some content with a value. */
  predicate IsPrintedFields(s: string) {
    match ReadFields("", s)
    case None => false
    case Some(f) => HasValue(f) && Fields(f) == s
  }

  /** Behind one of its semicolons the action continues like printed values. */
  predicate SpellsOutValues(action: string) {
    exists i :: 0 <= i < |action| && action[i] == ';' && IsPrintedFields(action[i + 1..] + ";")
  }

  /** Two contents share a text exactly when one has a value and the other's action spells values out. */
  lemma AmbiguousIff(c: Content)
    ensures (exists d :: d != c && Text(d) == Text(c)) <==> HasValue(c) || SpellsOutValues(c.action)
  {
    if HasValue(c) {
      var d := ValuesHideInAction(c);
    } else if SpellsOutValues(c.action) {
      var d := SpelledOut(c);
    } else {
      forall d | Text(d) == Text(c) ensures d == c {
        TwinSpellsOut(c, d);
      }
    }
  }

  /** Reading the spelt-out values off the action gives a different content with the same text. */
  lemma SpelledOut(c: Content) returns (d: Content)
    requires !HasValue(c) && SpellsOutValues(c.action)
    ensures d != c && Text(d) == Text(c)
  {
    hide Fields, ReadFields;
    var i :| 0 <= i < |c.action| && c.action[i] == ';' && IsPrintedFields(c.action[i + 1..] + ";");
    var f := ReadFields("", c.action[i + 1..] + ";").value;
    d := f.(action := c.action[..i]);
    FieldsIgnoreAction(f, d.action);
    NoFields(c);
    CutAt(c.action, i);
  }

  lemma FieldsIgnoreAction(c: Content, action: string)
    ensures Fields(c.(action := action)) == Fields(c)
  {
  }

  lemma CutAt(a: string, i: nat)
    requires i < |a| && a[i] == ';'
    ensures a[..i] + (";" + (a[i + 1..] + ";")) == a + ";"
  {
  }

  lemma TwinSpellsOut(c: Content, d: Content)
    requires !HasValue(c) && Text(d) == Text(c)
    ensures d == c || SpellsOutValues(c.action)
  {
    hide Fields, ReadFields;
    NoFields(c);
    AfterPrefix(c.action + ";", d.action + (";" + Fields(d)));
    if !HasValue(d) {
      NoFields(d);
      AfterPrefix(c.action + ";", d.action + ";");
      assert (c.action + ";")[..|c.action|] == c.action && (d.action + ";")[..|d.action|] == d.action;
    } else {
      var bare := d.(action := "");
      FieldsEndInSemicolon(d);
      CutBack(c.action, d.action, Fields(d));
      FieldsIgnoreAction(d, "");
      ReadFieldsOfFields(bare);
      assert IsPrintedFields(c.action[|d.action| + 1..] + ";");
    }
  }

  lemma AfterPrefix(s: string, t: string)
    requires "a=" + s == "a=" + t
    ensures s == t
  {
    assert ("a=" + s)[2..] == s && ("a=" + t)[2..] == t;
  }

  lemma CutBack(a: string, b: string, f: string)
    requires a + ";" == b + (";" + f) && f != ""
    ensures |b| < |a| && a[|b|] == ';' && a[|b| + 1..] + ";" == f
  {
    assert |a| == |b| + |f|;
    assert (a + ";")[|b|] == ';';
    assert (b + (";" + f))[|b| + 1..] == f;
    assert (a + ";")[|b| + 1..] == a[|b| + 1..] + ";";
  }
}
