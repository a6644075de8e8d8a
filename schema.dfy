/** The record schema the parsed components are validated against: the field constraints of
    `Meta`, `Introduction`, `Chapter` and their nested records, the custom validators, and the
    parts of pydantic's validation they rely on (`str`, `constr`, `stricturl`, `date`, file and
    directory paths, missing and forbidden extra fields), each as a function from a token value
    to a record or the first error. */
module Schema {
  import opened Wrappers
  import opened Strings
  import opened Dicts
  import opened Values
  import opened ErrorMessages

  // ---------------------------------------------------------------------------------------
  // Python's string order and pydantic's error plumbing
  // ---------------------------------------------------------------------------------------

  /** Python's `a < b` on strings: by code points, a proper prefix first. */
  predicate LexLess(a: string, b: string) {
    if |a| == 0 then |b| > 0
    else if |b| == 0 then false
    else if a[0] != b[0] then a[0] < b[0]
    else LexLess(a[1..], b[1..])
  }

  lemma {:induction false} LexLessIrreflexive(a: string)
    ensures !LexLess(a, a)
  {
    if |a| > 0 {
      LexLessIrreflexive(a[1..]);
    }
  }

  lemma {:induction false} LexLessTransitive(a: string, b: string, c: string)
    requires LexLess(a, b) && LexLess(b, c)
    ensures LexLess(a, c)
  {
    if |a| > 0 && |b| > 0 && |c| > 0 && a[0] == b[0] && b[0] == c[0] {
      LexLessTransitive(a[1..], b[1..], c[1..]);
    }
  }

  /** Two different strings are ordered one way or the other. */
  lemma {:induction false} LexLessTotal(a: string, b: string)
    ensures a == b || LexLess(a, b) || LexLess(b, a)
  {
    if |a| > 0 && |b| > 0 && a[0] == b[0] {
      LexLessTotal(a[1..], b[1..]);
      if a[1..] == b[1..] {
        assert a == [a[0]] + a[1..] && b == [b[0]] + b[1..];
      }
    }
  }

  /** An error before it is placed in a record: the location is added by the caller. */
  function Fail<T>(msg: string): Result<T, FieldError> {
    Failure(FieldError([], msg))
  }

  /** The error of a nested value, placed under the field name or list index it came from. */
  function Tag<T>(p: LocPart, r: Result<T, FieldError>): (t: Result<T, FieldError>)
    ensures t.Success? <==> r.Success?
    ensures t.Success? ==> t.value == r.value
    ensures t.Failure? ==> t.error.loc == [p] + r.error.loc && t.error.msg == r.error.msg
  {
    match r
    case Success(v) => Success(v)
    case Failure(e) => Failure(FieldError([p] + e.loc, e.msg))
  }

  const MsgRequired := "field required"
  const MsgExtra := "extra fields not permitted"
  const MsgStrType := "str type expected"
  const MsgDict := "value is not a valid dict"
  const MsgList := "value is not a valid list"

  /** A required field: its value, or `field required` at its name. */
  function Need(t: Tokens, name: string): (r: Result<Value, FieldError>)
    ensures r.Success? <==> HasKey(t, name)
    ensures r.Success? ==> r.value == Get(t, name)
    ensures r.Failure? ==> r.error == FieldError([Field(name)], MsgRequired)
  {
    if HasKey(t, name) then Success(Get(t, name)) else Failure(FieldError([Field(name)], MsgRequired))
  }

  /** An optional field that was given: its validated value, wrapped. */
  function Given<T>(r: Result<T, FieldError>): Result<Option<T>, FieldError> {
    match r
    case Success(v) => Success(Some(v))
    case Failure(e) => Failure(e)
  }

  /** The smallest key of `keys` (by Python's order) that is not a declared field name: the
      first extra field pydantic reports, as it reports `sorted(extra)`. */
  function SmallestExtra(keys: seq<string>, names: seq<string>): (r: Option<string>)
    ensures r.None? <==> forall i :: 0 <= i < |keys| ==> keys[i] in names
    ensures r.Some? ==> r.value in keys && r.value !in names
    ensures r.Some? ==> forall i :: 0 <= i < |keys| && keys[i] !in names ==> r.value == keys[i] || LexLess(r.value, keys[i])
  {
    if |keys| == 0 then None
    else
      var rest := SmallestExtra(keys[1..], names);
      assert forall i :: 1 <= i < |keys| ==> keys[i] == keys[1..][i - 1];
      if keys[0] in names then rest
      else
        match rest
        case None => Some(keys[0])
        case Some(m) =>
          LexLessTotal(m, keys[0]);
          if LexLess(m, keys[0]) then rest
          else
            assert forall i :: 1 <= i < |keys| && keys[i] !in names ==> keys[0] == keys[i] || LexLess(keys[0], keys[i]) by {
              forall i | 1 <= i < |keys| && keys[i] !in names
                ensures keys[0] == keys[i] || LexLess(keys[0], keys[i])
              {
                if m != keys[0] && m != keys[i] {
                  LexLessTransitive(keys[0], m, keys[i]);
                }
              }
            }
            Some(keys[0])
  }

  /** `extra = Extra.forbid`: the smallest key that is not a field is reported as extra. */
  function NoExtra(t: Tokens, names: seq<string>): (r: Result<(), FieldError>)
    ensures r.Success? <==> forall k :: k in Keys(t) ==> k in names
    ensures r.Failure? ==> r.error.msg == MsgExtra && |r.error.loc| == 1 && r.error.loc[0].Field?
    ensures r.Failure? ==> var k := r.error.loc[0].name;
      k in Keys(t) && k !in names && forall k' :: k' in Keys(t) && k' !in names ==> k == k' || LexLess(k, k')
  {
    match SmallestExtra(Keys(t), names)
    case None => Success(())
    case Some(k) => Failure(FieldError([Field(k)], MsgExtra))
  }

  // ---------------------------------------------------------------------------------------
  // `str` and `constr`
  // ---------------------------------------------------------------------------------------

  /** The `str` type: a string, or `str type expected`. */
  function StrValue(v: Value): (r: Result<string, FieldError>)
    ensures r.Success? <==> v.Str?
    ensures r.Success? ==> r.value == v.s
    ensures r.Failure? ==> r.error == FieldError([], MsgStrType)
  {
    match v
    case Str(s) => Success(s)
    case _ => Fail(MsgStrType)
  }

  function MinLengthMsg(n: nat): string {
    "ensure this value has at least " + NatToString(n) + " characters"
  }

  function MaxLengthMsg(n: nat): string {
    "ensure this value has at most " + NatToString(n) + " characters"
  }

  /** `constr(min_length=lo, max_length=hi)`: the type check, then the minimum, then the
      maximum. */
  function Constr(v: Value, lo: nat, hi: Option<nat>): (r: Result<string, FieldError>)
    ensures r.Success? <==> v.Str? && lo <= |v.s| && (hi.Some? ==> |v.s| <= hi.value)
    ensures r.Success? ==> r.value == v.s
    ensures r.Failure? && v.Str? && |v.s| < lo ==> r.error == FieldError([], MinLengthMsg(lo))
    ensures r.Failure? && v.Str? && lo <= |v.s| ==> hi.Some? && r.error == FieldError([], MaxLengthMsg(hi.value))
    ensures !v.Str? ==> r.error == FieldError([], MsgStrType)
  {
    var s :- StrValue(v);
    if |s| < lo then Fail(MinLengthMsg(lo))
    else if hi.Some? && |s| > hi.value then Fail(MaxLengthMsg(hi.value))
    else Success(s)
  }

  // ---------------------------------------------------------------------------------------
  // `stricturl(allowed_schemes=["https"])`
  // ---------------------------------------------------------------------------------------

  /** A character that `[a-z]` matches under `re.IGNORECASE`: the 52 ASCII letters, and the four
      non-ASCII letters whose case folding reaches one of them (dotted capital I, dotless small i,
      long s and the Kelvin sign). */
  predicate Letter(c: char) {
    'a' <= c <= 'z' || 'A' <= c <= 'Z' || c == '\U{0130}' || c == '\U{0131}' || c == '\U{017F}' || c == '\U{212A}'
  }

  /** A character the URL regex allows in a scheme after its first letter (case-insensitive). */
  predicate SchemeChar(c: char) {
    Letter(c) || IsDigit(c) || c == '+' || c == '-' || c == '.'
  }

  /** The length of the longest prefix of scheme characters. */
  function SchemeRun(s: string): (n: nat)
    ensures n <= |s| && (forall i :: 0 <= i < n ==> SchemeChar(s[i])) && (n < |s| ==> !SchemeChar(s[n]))
  {
    if |s| > 0 && SchemeChar(s[0]) then 1 + SchemeRun(s[1..]) else 0
  }

  /** The `scheme` group of the URL regex: a letter and at least one more scheme character,
      followed by `://`; `None` when the optional group does not take part in the match. */
  function UrlScheme(s: string): Option<string> {
    if |s| > 0 && Letter(s[0]) then
      var n := 1 + SchemeRun(s[1..]);
      if n >= 2 && OccursAt(s, "://", n) then Some(s[..n]) else None
    else None
  }

  predicate IsScheme(sc: string) {
    |sc| >= 2 && Letter(sc[0]) && forall i :: 0 <= i < |sc| ==> SchemeChar(sc[i])
  }

  /** The scheme is found exactly when the URL starts with a scheme and `://`, and then it is
      that scheme (a scheme cannot hold `:`, so there is only one way to read it). */
  lemma UrlSchemeMeaning(s: string, sc: string)
    ensures UrlScheme(s) == Some(sc) <==> IsScheme(sc) && StartsWith(s, sc + "://")
  {
    if IsScheme(sc) && StartsWith(s, sc + "://") {
      var n := 1 + SchemeRun(s[1..]);
      assert s[..|sc|] == sc;
      SchemeRunAtLeast(s, |sc|);
      assert s[|sc|] == ':';
      assert n == |sc|;
      assert s[n..n + 3] == (sc + "://")[n..n + 3];
    }
    if UrlScheme(s) == Some(sc) {
      var n := 1 + SchemeRun(s[1..]);
      assert forall i :: 1 <= i < n ==> s[i] == s[1..][i - 1];
      assert s[..n] + s[n..n + 3] == (sc + "://");
    }
  }

  /** A prefix of scheme characters is covered by the run that starts after the first one. */
  lemma SchemeRunAtLeast(s: string, k: nat)
    requires 1 <= k <= |s| && forall i :: 0 <= i < k ==> SchemeChar(s[i])
    requires k < |s| ==> !SchemeChar(s[k])
    ensures 1 + SchemeRun(s[1..]) == k
  {
    var t := s[1..];
    var n := SchemeRun(t);
    assert forall i :: 0 <= i < |t| ==> t[i] == s[i + 1];
  }

  const MsgScheme := "invalid or missing URL scheme"
  const MsgSchemePermitted := "URL scheme not permitted"
  const UrlMaxLength: nat := 65536

  /** `stricturl(allowed_schemes=["https"])`: the type check, stripping, the length bounds
      1 to 65536, a scheme, and a scheme that lower-cases to `https`. */
  function StrictUrl(v: Value): (r: Result<string, FieldError>)
    ensures r.Success? ==> v.Str? && r.value == Strip(v.s)
    ensures r.Success? ==> (1 <= |r.value| <= UrlMaxLength && UrlScheme(r.value).Some?
      && ToLowerAscii(UrlScheme(r.value).value) == "https")
  {
    var s :- StrValue(v);
    var u := Strip(s);
    if |u| < 1 then Fail(MinLengthMsg(1))
    else if |u| > UrlMaxLength then Fail(MaxLengthMsg(UrlMaxLength))
    else
      match UrlScheme(u)
      case None => Fail(MsgScheme)
      case Some(sc) => if ToLowerAscii(sc) != "https" then Fail(MsgSchemePermitted) else Success(u)
  }

  /** An accepted URL starts with `https://`, in any letter case. */
  lemma StrictUrlHttps(v: Value)
    requires StrictUrl(v).Success?
    ensures var u := StrictUrl(v).value; |u| >= 8 && ToLowerAscii(u[..5]) == "https" && u[5..8] == "://"
  {
    var u := StrictUrl(v).value;
    var sc := UrlScheme(u).value;
    UrlSchemeMeaning(u, sc);
    assert |sc| == 5;
    assert u[..5] == sc;
    assert u[5..8] == (sc + "://")[5..8];
  }

  /** A string without `://` has no scheme and is refused as such. */
  lemma StrictUrlMissingScheme(u: string)
    requires 1 <= |u| <= UrlMaxLength && !IsSpace(u[0]) && !IsSpace(u[|u| - 1])
    requires forall i :: 0 <= i < |u| ==> u[i] != ':'
    ensures StrictUrl(Str(u)) == Fail(MsgScheme)
  {
    StripFixedStr(u);
  }

  /** A URL with another scheme than `https` (here `http`) is refused. */
  lemma StrictUrlHttp(rest: string)
    requires |rest| < 65000 && (rest == [] || !IsSpace(rest[|rest| - 1]))
    ensures StrictUrl(Str("http://" + rest)) == Fail(MsgSchemePermitted)
  {
    var h := "http://" + rest;
    assert h == "http" + "://" + rest;
    StripFixedStr(h);
    UrlSchemeMeaning(h, "http");
    assert ToLowerAscii("http") == "http";
  }

  /** Under `re.IGNORECASE` a scheme may start with a long s: `ſftp://` is a scheme, so the URL is
      refused as not permitted rather than as missing its scheme. */
  lemma StrictUrlFoldedScheme(rest: string)
    requires |rest| < 65000 && (rest == [] || !IsSpace(rest[|rest| - 1]))
    ensures StrictUrl(Str("\U{017F}ftp://" + rest)) == Fail(MsgSchemePermitted)
  {
    var h := "\U{017F}ftp://" + rest;
    assert h == "\U{017F}ftp" + "://" + rest;
    StripFixedStr(h);
    UrlSchemeMeaning(h, "\U{017F}ftp");
    assert ToLowerAscii("\U{017F}ftp")[0] == '\U{017F}';
  }

  /** An `https` URL is accepted as it is. */
  lemma StrictUrlHttpsAccepted(rest: string)
    requires |rest| < 65000 && (rest == [] || !IsSpace(rest[|rest| - 1]))
    ensures StrictUrl(Str("https://" + rest)) == Success("https://" + rest)
  {
    var h := "https://" + rest;
    assert h == "https" + "://" + rest;
    StripFixedStr(h);
    UrlSchemeMeaning(h, "https");
    assert ToLowerAscii("https") == "https";
  }

  /** Stripping leaves a string alone when neither end is whitespace. */
  lemma StripFixedStr(s: string)
    requires |s| > 0 && !IsSpace(s[0]) && !IsSpace(s[|s| - 1])
    ensures Strip(s) == s
  {
  }

  // ---------------------------------------------------------------------------------------
  // `date`
  // ---------------------------------------------------------------------------------------

  /** A calendar date, or a number of seconds since the epoch (pydantic takes a string that
      reads as a number as a Unix timestamp). */
  datatype Date = Calendar(year: nat, month: nat, day: nat) | UnixTime(seconds: nat)

  predicate LeapYear(y: nat) {
    y % 4 == 0 && (y % 100 != 0 || y % 400 == 0)
  }

  function DaysIn(y: nat, m: nat): nat {
    if m == 2 then (if LeapYear(y) then 29 else 28)
    else if m == 4 || m == 6 || m == 9 || m == 11 then 30
    else 31
  }

  /** What Python's `date(year, month, day)` accepts. */
  predicate ValidCalendar(y: nat, m: nat, d: nat) {
    1 <= y <= 9999 && 1 <= m <= 12 && 1 <= d <= DaysIn(y, m)
  }

  /** `date_re` matches with a month of `ml` digits: four digits, `-`, the month, `-`, and a
      day of one or two digits up to the end. */
  predicate DateShape(b: string, ml: nat) {
    1 <= ml <= 2 && 6 + ml < |b| <= 8 + ml
    && AllDigits(b[..4]) && b[4] == '-' && AllDigits(b[5..5 + ml]) && b[5 + ml] == '-' && AllDigits(b[6 + ml..])
  }

  /** The month's width is determined: its last digit cannot also be the dash. */
  lemma DateShapeUnique(b: string)
    ensures !(DateShape(b, 1) && DateShape(b, 2))
  {
    if DateShape(b, 2) {
      assert IsDigit(b[5..7][1]);
    }
  }

  /** `date_re.match(value)`: the year, month and day groups as numbers. */
  function DateMatch(s: string): Option<(nat, nat, nat)> {
    var b := RegexBody(s);
    if DateShape(b, 1) then Some((DigitsValue(b[..4]), DigitsValue(b[5..6]), DigitsValue(b[7..])))
    else if DateShape(b, 2) then Some((DigitsValue(b[..4]), DigitsValue(b[5..7]), DigitsValue(b[8..])))
    else None
  }

  const MsgDate := "invalid date format"
  const MsgDateType := "invalid type; expected date, string, bytes, int or float"

  /** pydantic's `parse_date` on a string: digits (with surrounding whitespace) read as a
      number give a timestamp; otherwise the `YYYY-M-D` pattern, and a real calendar date. */
  function ParseDate(v: Value): (r: Result<Date, FieldError>)
    ensures r.Success? && r.value.Calendar? ==> ValidCalendar(r.value.year, r.value.month, r.value.day)
    ensures r.Failure? && v.Str? ==> r.error == FieldError([], MsgDate)
  {
    match v
    case Str(s) =>
      var t := Strip(s);
      if |t| > 0 && AllDigits(t) then Success(UnixTime(DigitsValue(t)))
      else
        (match DateMatch(s)
         case None => Fail(MsgDate)
         case Some((y, m, d)) => if ValidCalendar(y, m, d) then Success(Calendar(y, m, d)) else Fail(MsgDate))
    case _ => Fail(MsgDateType)
  }

  /** A `YYYY-MM-DD` string is the date it names when that date exists, and is refused
      otherwise. */
  lemma ParseDateLong(y: string, m: string, d: string)
    requires |y| == 4 && |m| == 2 && |d| == 2 && AllDigits(y) && AllDigits(m) && AllDigits(d)
    ensures var (yv, mv, dv) := (DigitsValue(y), DigitsValue(m), DigitsValue(d));
      ParseDate(Str(y + "-" + m + "-" + d))
        == if ValidCalendar(yv, mv, dv) then Success(Calendar(yv, mv, dv)) else Fail(MsgDate)
  {
    DateMatchLong(y + "-" + m + "-" + d, y, m, d);
  }

  /** The same for a one-digit month, `YYYY-M-DD`. */
  lemma ParseDateShort(y: string, m: string, d: string)
    requires |y| == 4 && |m| == 1 && |d| == 2 && AllDigits(y) && AllDigits(m) && AllDigits(d)
    ensures var (yv, mv, dv) := (DigitsValue(y), DigitsValue(m), DigitsValue(d));
      ParseDate(Str(y + "-" + m + "-" + d))
        == if ValidCalendar(yv, mv, dv) then Success(Calendar(yv, mv, dv)) else Fail(MsgDate)
  {
    DateMatchShort(y + "-" + m + "-" + d, y, m, d);
  }

  /** February 29th exists in leap years only; there is no 24th month. */
  lemma CalendarExamples()
    ensures ValidCalendar(2020, 12, 29) && !ValidCalendar(2020, 24, 31)
    ensures ValidCalendar(2020, 2, 29) && !ValidCalendar(2021, 2, 29) && !ValidCalendar(1900, 2, 29)
  {
  }

  /** A literal `YYYY-MM-DD`: not a number, and its three groups. */
  lemma DateMatchLong(s: string, y: string, m: string, d: string)
    requires |y| == 4 && |m| == 2 && |d| == 2 && AllDigits(y) && AllDigits(m) && AllDigits(d)
    requires s == y + "-" + m + "-" + d
    ensures Strip(s) == s && !AllDigits(s)
    ensures DateMatch(s) == Some((DigitsValue(y), DigitsValue(m), DigitsValue(d)))
  {
    assert s[4] == '-' && s[0] == y[0] && s[9] == d[1];
    StripFixedStr(s);
    assert RegexBody(s) == s;
    assert s[..4] == y && s[5..7] == m && s[8..] == d;
    assert DateShape(s, 2);
    DateShapeUnique(s);
  }

  /** A literal `YYYY-M-DD`: not a number, and its three groups. */
  lemma DateMatchShort(s: string, y: string, m: string, d: string)
    requires |y| == 4 && |m| == 1 && |d| == 2 && AllDigits(y) && AllDigits(m) && AllDigits(d)
    requires s == y + "-" + m + "-" + d
    ensures Strip(s) == s && !AllDigits(s)
    ensures DateMatch(s) == Some((DigitsValue(y), DigitsValue(m), DigitsValue(d)))
  {
    assert s[4] == '-' && s[0] == y[0] && s[8] == d[1];
    StripFixedStr(s);
    assert RegexBody(s) == s;
    assert s[..4] == y && s[5..6] == m && s[7..] == d;
    assert DateShape(s, 1);
  }

  // ---------------------------------------------------------------------------------------
  // Meta's own validators
  // ---------------------------------------------------------------------------------------

  /** `in_between(n, mi, mx)`. */
  predicate InBetween(n: int, lo: int, hi: int) {
    lo <= n <= hi
  }

  /** `words(ws)`: split on single spaces. */
  function Words(kws: string): (ws: seq<string>)
    ensures |ws| >= 1
  {
    Split(kws, " ")
  }

  /** `valid_keywords(word_count, kws)`: the word count, and every word 3 to 16 long. */
  predicate ValidKeywords(wordCount: nat, kws: string) {
    var ws := Words(kws);
    |ws| == wordCount && forall i :: 0 <= i < |ws| ==> InBetween(|ws[i]|, 3, 16)
  }

  /** `set(l)`. */
  function ToSet(l: seq<string>): (s: set<string>)
    ensures forall x :: x in s <==> x in l
  {
    if |l| == 0 then {} else {l[0]} + ToSet(l[1..])
  }

  /** `duplicates(l)`: the list and its set differ in size. */
  predicate Duplicates(l: seq<string>) {
    |ToSet(l)| != |l|
  }

  /** `duplicates` holds exactly when some word occurs twice. */
  lemma {:induction false} DuplicatesMeaning(l: seq<string>)
    ensures Duplicates(l) <==> exists i, j :: 0 <= i < j < |l| && l[i] == l[j]
  {
    if |l| > 0 {
      var t := l[1..];
      DuplicatesMeaning(t);
      ToSetSize(t);
      ToSetCons(l);
      RepeatCons(l);
    }
  }

  /** The set of a non-empty list grows by its head unless the head occurs again. */
  lemma ToSetCons(l: seq<string>)
    requires |l| > 0
    ensures |ToSet(l)| == if l[0] in l[1..] then |ToSet(l[1..])| else 1 + |ToSet(l[1..])|
  {
    assert ToSet(l) == {l[0]} + ToSet(l[1..]);
  }

  /** A non-empty list repeats a word when its head occurs again or its tail repeats one. */
  lemma RepeatCons(l: seq<string>)
    requires |l| > 0
    ensures (exists i, j :: 0 <= i < j < |l| && l[i] == l[j]) <==>
      l[0] in l[1..] || exists i, j :: 0 <= i < j < |l[1..]| && l[1..][i] == l[1..][j]
  {
    var t := l[1..];
    if l[0] in t {
      var j :| 0 <= j < |t| && t[j] == l[0];
      assert l[0] == l[j + 1];
    }
    if exists i, j :: 0 <= i < j < |l| && l[i] == l[j] {
      var i, j :| 0 <= i < j < |l| && l[i] == l[j];
      if i == 0 {
        assert t[j - 1] == l[0];
      } else {
        assert t[i - 1] == t[j - 1];
      }
    }
    if exists i, j :: 0 <= i < j < |t| && t[i] == t[j] {
      var i, j :| 0 <= i < j < |t| && t[i] == t[j];
      assert l[i + 1] == l[j + 1];
    }
  }

  lemma {:induction false} ToSetSize(l: seq<string>)
    ensures |ToSet(l)| <= |l|
  {
    if |l| > 0 {
      ToSetSize(l[1..]);
    }
  }

  const MsgKeywords := "ensure this value has exactly 5 words with at least 3 characters and up to 16 for each word"
  const MsgDuplicates := "ensure this value has no duplicates in it"
  const MsgYear := "ensure this value has these formats of integers \"2020 - 2021\" or \"2020\""

  /** `keywords: str` with its two validators, in declaration order: five words of 3 to 16
      characters, then no duplicates. */
  function Keywords(v: Value): (r: Result<string, FieldError>)
    ensures r.Success? <==> v.Str? && ValidKeywords(5, v.s) && !Duplicates(Words(v.s))
    ensures r.Success? ==> r.value == v.s
    ensures v.Str? && !ValidKeywords(5, v.s) ==> r == Fail(MsgKeywords)
    ensures v.Str? && ValidKeywords(5, v.s) && Duplicates(Words(v.s)) ==> r == Fail(MsgDuplicates)
  {
    var s :- StrValue(v);
    if !ValidKeywords(5, s) then Fail(MsgKeywords)
    else if Duplicates(Words(s)) then Fail(MsgDuplicates)
    else Success(s)
  }

  /** Five distinct words of 3 to 16 characters without spaces, joined with single spaces,
      are accepted, and split back into those words. */
  lemma KeywordsRendered(ws: seq<string>)
    requires |ws| == 5
    requires forall i :: 0 <= i < 5 ==> 3 <= |ws[i]| <= 16 && ' ' !in ws[i]
    requires forall i, j :: 0 <= i < j < 5 ==> ws[i] != ws[j]
    ensures Keywords(Str(Join(ws, " "))) == Success(Join(ws, " "))
    ensures Words(Join(ws, " ")) == ws
  {
    var j := Join(ws, " ");
    assert Words(j) == ws by {
      SplitJoin(ws, ' ');
    }
    assert ValidKeywords(5, j);
    assert !Duplicates(Words(j)) by {
      DuplicatesMeaning(ws);
    }
  }

  /** An empty string and two words are not five keywords. */
  lemma KeywordsExamples()
    ensures !ValidKeywords(5, "")
    ensures !ValidKeywords(5, "abc def")
  {
    NotInNoOccurrence("", ' ');
    FirstOccurrenceAfter("abc", ' ', "def");
    NotInNoOccurrence("def", ' ');
    var s := "abc def";
    assert s == "abc" + [' '] + "def";
    assert s[..3] == "abc" && s[4..] == "def";
  }

  /** `valid_year(y)`: `^([0-9]{4}|[0-9]{4} - [0-9]{4})$`. */
  predicate ValidYear(y: string) {
    var b := RegexBody(y);
    (|b| == 4 && AllDigits(b))
    || (|b| == 11 && AllDigits(b[..4]) && b[4..7] == " - " && AllDigits(b[7..]))
  }

  lemma ValidYearExamples()
    ensures ValidYear("2020") && ValidYear("2020 - 2021")
    ensures !ValidYear("20144") && !ValidYear("abcd") && !ValidYear("")
  {
    assert "2020 - 2021"[4..7] == " - ";
    assert !IsDigit("abcd"[0]);
  }

  /** `year: constr(min_length=4)` with `year_must_be_valid_format`. */
  function Year(v: Value): (r: Result<string, FieldError>)
    ensures r.Success? <==> v.Str? && |v.s| >= 4 && ValidYear(v.s)
    ensures r.Success? ==> r.value == v.s
    ensures v.Str? && |v.s| >= 4 && !ValidYear(v.s) ==> r == Fail(MsgYear)
  {
    var s :- Constr(v, 4, None);
    if !ValidYear(s) then Fail(MsgYear) else Success(s)
  }

  // ---------------------------------------------------------------------------------------
  // Web-root paths
  // ---------------------------------------------------------------------------------------

  /** The files and directories present, by their normalised relative paths. */
  datatype FileSystem = FileSystem(files: set<string>, dirs: set<string>)

  const MsgDirNavigation := "dir navigation not allowed"

  /** `one_folder_up` as written: `None` where `v[0]` raises an IndexError (an empty value),
      which pydantic does not catch. */
  function OneFolderUpAsWritten(v: string): Option<Result<string, string>> {
    if |v| == 0 then None
    else if v[0] != '/' && v[..if |v| < 3 then |v| else 3] != "../" then Some(Success("../" + v))
    else Some(Failure(MsgDirNavigation))
  }

  /** `one_folder_up`, corrected to `startswith` checks: navigation out of the web root is
      refused, anything else is moved one folder up. */
  function OneFolderUp(v: string): (r: Result<string, string>)
    ensures r.Failure? <==> StartsWith(v, "/") || StartsWith(v, "../")
    ensures r.Failure? ==> r.error == MsgDirNavigation
    ensures r.Success? ==> r.value == "../" + v
  {
    if !StartsWith(v, "/") && !StartsWith(v, "../") then Success("../" + v) else Failure(MsgDirNavigation)
  }

  /** Where the validator as written does not fail, it agrees with the corrected one; it fails
      on the empty value, which the corrected one moves up to `../`. */
  lemma OneFolderUpAgrees(v: string)
    ensures |v| > 0 ==> OneFolderUpAsWritten(v) == Some(OneFolderUp(v))
    ensures OneFolderUpAsWritten("").None? && OneFolderUp("") == Success("../")
  {
    assert "../" + "" == "../";
    if |v| > 0 {
      if |v| < 3 {
        assert !StartsWith(v, "../");
      }
    }
  }

  /** pathlib's normal form of a relative path: empty and `.` parts dropped. */
  function NormPath(p: string): string {
    var parts := KeptParts(Split(p, "/"));
    if |parts| == 0 then "." else Join(parts, "/")
  }

  function KeptParts(ps: seq<string>): (r: seq<string>)
    ensures forall i :: 0 <= i < |r| ==> r[i] != "" && r[i] != "."
  {
    if |ps| == 0 then []
    else if ps[0] == "" || ps[0] == "." then KeptParts(ps[1..])
    else [ps[0]] + KeptParts(ps[1..])
  }

  function MsgNotExist(p: string): string {
    "file or directory at path \"" + p + "\" does not exist"
  }

  function MsgNotFile(p: string): string {
    "path \"" + p + "\" does not point to a file"
  }

  function MsgNotDir(p: string): string {
    "path \"" + p + "\" does not point to a directory"
  }

  /** `WebRootPath` (`file == false`, a directory) or `WebRootFilePath` (`file == true`):
      `one_folder_up`, the path type's existence and kind checks, then `set_absolute`. */
  function WebRootPath(fs: FileSystem, v: Value, file: bool): (r: Result<string, FieldError>)
    ensures r.Success? ==> v.Str? && !StartsWith(v.s, "/") && !StartsWith(v.s, "../")
    ensures r.Success? ==> var p := NormPath("../" + v.s);
      |p| >= 2 && (if file then p in fs.files else p in fs.dirs) && r.value == p[2..]
    ensures v.Str? && (StartsWith(v.s, "/") || StartsWith(v.s, "../")) ==> r == Fail(MsgDirNavigation)
  {
    var s :- StrValue(v);
    match OneFolderUp(s)
    case Failure(m) => Fail(m)
    case Success(u) =>
      var p := NormPath(u);
      if p !in fs.files && p !in fs.dirs then Fail(MsgNotExist(p))
      else if file && p !in fs.files then Fail(MsgNotFile(p))
      else if !file && p !in fs.dirs then Fail(MsgNotDir(p))
      else
        NormPathUp(s);
        Success(p[2..])
  }

  /** A path one folder up normalises to something starting with `..`. */
  lemma NormPathUp(v: string)
    ensures |NormPath("../" + v)| >= 2 && NormPath("../" + v)[..2] == ".."
  {
    var p := "../" + v;
    assert p == ".." + ['/'] + v;
    FirstOccurrenceAfter("..", '/', v);
    assert p[..2] == ".." && p[3..] == v;
    var rest := Split(v, "/");
    assert Split(p, "/") == [".."] + rest;
    var kept := KeptParts([".."] + rest);
    assert ([".."] + rest)[1..] == rest;
    assert kept == [".."] + KeptParts(rest);
    JoinFirst(kept, "/");
  }

  /** Splitting a path one folder up gives `..` and the parts of the path. */
  lemma SplitUp(v: string)
    ensures Split("../" + v, "/") == [".."] + Split(v, "/")
  {
    var p := "../" + v;
    assert p == ".." + ['/'] + v;
    FirstOccurrenceAfter("..", '/', v);
    assert p[..2] == ".." && p[3..] == v;
  }

  lemma JoinFirst(parts: seq<string>, sep: string)
    requires |parts| > 0
    ensures Join(parts, sep)[..|parts[0]|] == parts[0]
  {
    if |parts| > 1 {
      assert Join(parts, sep) == parts[0] + (sep + Join(parts[1..], sep));
    }
  }

  /** A clean relative path (no empty or `.` parts) that points to an existing file or
      directory is accepted as the same path made absolute. */
  lemma WebRootPathClean(fs: FileSystem, parts: seq<string>, file: bool)
    requires |parts| > 0 && parts[0] != ".."
    requires forall i :: 0 <= i < |parts| ==> parts[i] != "" && parts[i] != "." && '/' !in parts[i]
    requires "../" + Join(parts, "/") in (if file then fs.files else fs.dirs)
    ensures WebRootPath(fs, Str(Join(parts, "/")), file) == Success("/" + Join(parts, "/"))
  {
    var v := Join(parts, "/");
    CleanNoNavigation(parts);
    CleanNormPath(parts);
    var p := "../" + v;
    UpAbsolute(v);
    assert OneFolderUp(v) == Success(p);
    assert NormPath(p) == p;
  }

  /** Dropping the `..` of a path one folder up leaves it absolute. */
  lemma UpAbsolute(v: string)
    ensures ("../" + v)[2..] == "/" + v
  {
    assert "../" + v == ".." + ("/" + v);
  }

  /** A clean relative path does not navigate out of the web root. */
  lemma CleanNoNavigation(parts: seq<string>)
    requires |parts| > 0 && parts[0] != ".." && parts[0] != "" && parts[0] != "." && '/' !in parts[0]
    ensures !StartsWith(Join(parts, "/"), "/") && !StartsWith(Join(parts, "/"), "../")
  {
    var v := Join(parts, "/");
    var p0 := parts[0];
    JoinFirst(parts, "/");
    assert v[..|p0|] == p0;
    assert forall i :: 0 <= i < |p0| ==> p0[i] == v[i];
    ShortString(p0);
    UpChars(v);
  }

  lemma UpChars(v: string)
    ensures StartsWith(v, "../") ==> v[0] == '.' && v[1] == '.' && v[2] == '/'
  {
    if StartsWith(v, "../") {
      assert v[..3][2] == v[2];
    }
  }

  /** Membership of the third character, and strings of one or two characters as displays. */
  lemma ShortString(s: string)
    ensures |s| >= 3 ==> s[2] in s
    ensures |s| == 1 ==> s == [s[0]]
    ensures |s| == 2 ==> s == [s[0], s[1]]
    ensures |s| == 3 ==> s == [s[0], s[1], s[2]]
  {
  }

  /** A clean path one folder up is already in pathlib's normal form. */
  lemma CleanNormPath(parts: seq<string>)
    requires |parts| > 0
    requires forall i :: 0 <= i < |parts| ==> parts[i] != "" && parts[i] != "." && '/' !in parts[i]
    ensures NormPath("../" + Join(parts, "/")) == "../" + Join(parts, "/")
  {
    CleanSplit(parts);
    CleanKept(parts);
    CleanJoin(parts);
  }

  lemma CleanSplit(parts: seq<string>)
    requires |parts| > 0 && forall i :: 0 <= i < |parts| ==> '/' !in parts[i]
    ensures Split("../" + Join(parts, "/"), "/") == [".."] + parts
  {
    SplitJoin(parts, '/');
    SplitUp(Join(parts, "/"));
  }

  lemma CleanKept(parts: seq<string>)
    requires forall i :: 0 <= i < |parts| ==> parts[i] != "" && parts[i] != "."
    ensures KeptParts([".."] + parts) == [".."] + parts
  {
    KeptAll(parts);
    assert |".."| == 2;
    KeptCons("..", parts);
  }

  lemma KeptCons(p: string, ps: seq<string>)
    requires p != "" && p != "."
    ensures KeptParts([p] + ps) == [p] + KeptParts(ps)
  {
    assert ([p] + ps)[1..] == ps;
  }

  lemma CleanJoin(parts: seq<string>)
    requires |parts| > 0
    ensures Join([".."] + parts, "/") == "../" + Join(parts, "/")
  {
    JoinCons("..", parts, "/");
    UpSlash();
  }

  lemma UpSlash()
    ensures ".." + "/" == "../"
  {
  }

  lemma {:induction false} KeptAll(ps: seq<string>)
    requires forall i :: 0 <= i < |ps| ==> ps[i] != "" && ps[i] != "."
    ensures KeptParts(ps) == ps
  {
    if |ps| > 0 {
      KeptAll(ps[1..]);
    }
  }

  /** `is_url(s)`: `^[a-z]+://`. */
  predicate IsUrl(s: string) {
    var n := LowerRun(s);
    n >= 1 && OccursAt(s, "://", n)
  }

  /** The length of the longest prefix of lower-case ASCII letters. */
  function LowerRun(s: string): (n: nat)
    ensures n <= |s| && (forall i :: 0 <= i < n ==> 'a' <= s[i] <= 'z') && (n < |s| ==> !('a' <= s[n] <= 'z'))
  {
    if |s| > 0 && 'a' <= s[0] <= 'z' then 1 + LowerRun(s[1..]) else 0
  }

  /** `is_url` holds exactly when the string starts with one or more lower-case letters and
      `://`. */
  lemma IsUrlMeaning(s: string)
    ensures IsUrl(s) <==>
      exists n :: 1 <= n && OccursAt(s, "://", n) && forall i :: 0 <= i < n ==> 'a' <= s[i] <= 'z'
  {
    if n :| 1 <= n && OccursAt(s, "://", n) && forall i :: 0 <= i < n ==> 'a' <= s[i] <= 'z' {
      var m := LowerRun(s);
      assert s[n..n + 3][0] == ':';
      assert m == n;
    }
  }

  // ---------------------------------------------------------------------------------------
  // The records
  // ---------------------------------------------------------------------------------------

  /** What a link field holds: an https URL, or a path under the web root (`WebRootFilePath`).
      The subclass variants built by the `type_*` factories are this tag. */
  datatype LinkKind = UrlLink | FileLink

  datatype Appendix = Appendix(description: string, kind: LinkKind, href: string)
  datatype Picture = Picture(kind: LinkKind, src: string, height: string)
  datatype Gallery = Gallery(height: string, kind: LinkKind, items: seq<string>)
  datatype Quote = Quote(author: string, content: string, reference: string)
  datatype Paragraph = Paragraph(kind: string, content: string)

  datatype Meta = Meta(author: string, website: string, year: string, title: string,
                       description: string, keywords: string, optOut: Option<string>)

  datatype Introduction = Introduction(content: string, appendix: Option<Appendix>)

  datatype Chapter = Chapter(author: string, topic: string, date: Date, website: Option<string>,
                             appendix: Option<Appendix>, picture: Option<Picture>,
                             interactiveExample: Option<string>, gallery: Option<Gallery>,
                             quote: Option<Quote>, paragraphs: Option<seq<Paragraph>>)

  datatype Article = Article(meta: Meta, introduction: Introduction, items: seq<Chapter>)

  /** A required field, validated and placed under its name. */
  function Req<T>(t: Tokens, name: string, check: Value -> Result<T, FieldError>): (r: Result<T, FieldError>)
    ensures !HasKey(t, name) ==> r == Failure(FieldError([Field(name)], MsgRequired))
    ensures HasKey(t, name) ==> r == Tag(Field(name), check(Get(t, name)))
  {
    var v :- Need(t, name);
    Tag(Field(name), check(v))
  }

  /** An `Optional` field: `None` when absent, else validated and placed under its name. */
  function Opt<T>(t: Tokens, name: string, check: Value -> Result<T, FieldError>): (r: Result<Option<T>, FieldError>)
    ensures !HasKey(t, name) ==> r == Success(None)
    ensures HasKey(t, name) ==> r == Given(Tag(Field(name), check(Get(t, name))))
  {
    if HasKey(t, name) then Given(Tag(Field(name), check(Get(t, name)))) else Success(None)
  }

  /** A link field of the given kind: `stricturl(allowed_schemes=["https"])` or
      `WebRootFilePath`. */
  function Link(fs: FileSystem, kind: LinkKind, v: Value): (r: Result<string, FieldError>)
    ensures r.Success? && kind == UrlLink ==>
      |r.value| >= 8 && ToLowerAscii(r.value[..5]) == "https" && r.value[5..8] == "://"
    ensures r.Success? && kind == FileLink ==>
      v.Str? && var p := NormPath("../" + v.s); |p| >= 2 && p in fs.files && r.value == p[2..]
  {
    if kind == UrlLink then
      var r := StrictUrl(v);
      if r.Success? then StrictUrlHttps(v); r else r
    else WebRootPath(fs, v, true)
  }

  /** A nested record: a dict, or `value is not a valid dict`. */
  function Fields(v: Value): (r: Result<Tokens, FieldError>)
    ensures r.Success? <==> v.Obj?
    ensures r.Success? ==> r.value == v.fields
    ensures r.Failure? ==> r.error == FieldError([], MsgDict)
  {
    match v
    case Obj(t) => Success(t)
    case _ => Fail(MsgDict)
  }

  /** `Appendix` (`kind == UrlLink`) or `AppendixFilePath` (`kind == FileLink`). */
  function AppendixOf(fs: FileSystem, kind: LinkKind, v: Value): (r: Result<Appendix, FieldError>)
    ensures r.Success? ==> r.value.kind == kind && 3 <= |r.value.description| <= 48
    ensures r.Success? ==> v.Obj? && HasKey(v.fields, "href") && Link(fs, kind, Get(v.fields, "href")) == Success(r.value.href)
  {
    var t :- Fields(v);
    var description :- Req(t, "description", x => Constr(x, 3, Some(48)));
    var href :- Req(t, "href", x => Link(fs, kind, x));
    Success(Appendix(description, kind, href))
  }

  /** `Picture` (`kind == FileLink`) or `PictureUrl` (`kind == UrlLink`). */
  function PictureOf(fs: FileSystem, kind: LinkKind, v: Value): (r: Result<Picture, FieldError>)
    ensures r.Success? ==> r.value.kind == kind && |r.value.height| >= 3
    ensures r.Success? ==> v.Obj? && HasKey(v.fields, "src") && Link(fs, kind, Get(v.fields, "src")) == Success(r.value.src)
  {
    var t :- Fields(v);
    var src :- Req(t, "src", x => Link(fs, kind, x));
    var height :- Req(t, "height", x => Constr(x, 3, None));
    Success(Picture(kind, src, height))
  }

  /** A `List[...]` field from index `k` on, given each item's own result: all the items'
      values, or the error of the first item that fails, placed under its index. */
  function ItemsFrom<T>(rs: seq<Result<T, FieldError>>, k: nat): (r: Result<seq<T>, FieldError>)
    requires k <= |rs|
    ensures r.Success? <==> forall j :: k <= j < |rs| ==> rs[j].Success?
    ensures r.Success? ==> |r.value| == |rs| - k && forall j :: k <= j < |rs| ==> rs[j] == Success(r.value[j - k])
    ensures r.Failure? ==> exists j :: (k <= j < |rs| && rs[j].Failure?
      && (forall i :: k <= i < j ==> rs[i].Success?)
      && r.error == FieldError([Index(j)] + rs[j].error.loc, rs[j].error.msg))
    decreases |rs| - k
  {
    if k == |rs| then Success([])
    else
      var x :- Tag(Index(k), rs[k]);
      var rest :- ItemsFrom(rs, k + 1);
      Success([x] + rest)
  }

  /** `List[...]` of links of one kind. */
  function Links(fs: FileSystem, kind: LinkKind, v: Value): (r: Result<seq<string>, FieldError>)
    ensures !v.List? ==> r == Fail(MsgList)
    ensures r.Success? <==> v.List? && forall j :: 0 <= j < |v.items| ==> Link(fs, kind, v.items[j]).Success?
    ensures r.Success? ==> |r.value| == |v.items| && forall j :: 0 <= j < |v.items| ==> Link(fs, kind, v.items[j]) == Success(r.value[j])
    ensures r.Failure? && v.List? ==> exists j :: (0 <= j < |v.items| && Link(fs, kind, v.items[j]).Failure?
      && (forall i :: 0 <= i < j ==> Link(fs, kind, v.items[i]).Success?)
      && r.error == FieldError([Index(j)] + Link(fs, kind, v.items[j]).error.loc, Link(fs, kind, v.items[j]).error.msg))
  {
    match v
    case List(xs) => ItemsFrom(LinkResults(fs, kind, xs), 0)
    case _ => Fail(MsgList)
  }

  function LinkResults(fs: FileSystem, kind: LinkKind, xs: seq<Value>): (rs: seq<Result<string, FieldError>>)
    ensures |rs| == |xs| && forall j :: 0 <= j < |xs| ==> rs[j] == Link(fs, kind, xs[j])
  {
    seq(|xs|, j requires 0 <= j < |xs| => Link(fs, kind, xs[j]))
  }

  /** `Gallery` (`kind == FileLink`) or `GalleryUrl` (`kind == UrlLink`): every item is checked
      against the one kind. */
  function GalleryOf(fs: FileSystem, kind: LinkKind, v: Value): (r: Result<Gallery, FieldError>)
    ensures r.Success? ==> r.value.kind == kind && |r.value.height| >= 3
    ensures r.Success? ==> (v.Obj? && HasKey(v.fields, "items") && Get(v.fields, "items").List?
      && var xs := Get(v.fields, "items").items;
         |r.value.items| == |xs| && forall j :: 0 <= j < |xs| ==> Link(fs, kind, xs[j]) == Success(r.value.items[j]))
  {
    var t :- Fields(v);
    var height :- Req(t, "height", x => Constr(x, 3, None));
    var items :- Req(t, "items", x => Links(fs, kind, x));
    Success(Gallery(height, kind, items))
  }

  function QuoteOf(v: Value): (r: Result<Quote, FieldError>)
    ensures r.Success? ==> 2 <= |r.value.author| <= 48 && |r.value.content| >= 10
    ensures r.Success? ==> v.Obj? && HasKey(v.fields, "reference") && StrictUrl(Get(v.fields, "reference")) == Success(r.value.reference)
  {
    var t :- Fields(v);
    var author :- Req(t, "author", x => Constr(x, 2, Some(48)));
    var content :- Req(t, "content", x => Constr(x, 10, None));
    var reference :- Req(t, "reference", StrictUrl);
    Success(Quote(author, content, reference))
  }

  function ParagraphOf(v: Value): (r: Result<Paragraph, FieldError>)
    ensures r.Success? ==> (v.Obj? && HasKey(v.fields, "type") && HasKey(v.fields, "content")
      && Get(v.fields, "type") == Str(r.value.kind) && Get(v.fields, "content") == Str(r.value.content))
  {
    var t :- Fields(v);
    var kind :- Req(t, "type", StrValue);
    var content :- Req(t, "content", StrValue);
    Success(Paragraph(kind, content))
  }

  function ParagraphResults(xs: seq<Value>): (rs: seq<Result<Paragraph, FieldError>>)
    ensures |rs| == |xs| && forall j :: 0 <= j < |xs| ==> rs[j] == ParagraphOf(xs[j])
  {
    seq(|xs|, j requires 0 <= j < |xs| => ParagraphOf(xs[j]))
  }

  function Paragraphs(v: Value): (r: Result<seq<Paragraph>, FieldError>)
    ensures !v.List? ==> r == Fail(MsgList)
    ensures r.Success? <==> v.List? && forall j :: 0 <= j < |v.items| ==> ParagraphOf(v.items[j]).Success?
    ensures r.Success? ==> |r.value| == |v.items| && forall j :: 0 <= j < |v.items| ==> ParagraphOf(v.items[j]) == Success(r.value[j])
    ensures r.Failure? && v.List? ==> exists j :: (0 <= j < |v.items| && ParagraphOf(v.items[j]).Failure?
      && (forall i :: 0 <= i < j ==> ParagraphOf(v.items[i]).Success?)
      && r.error == FieldError([Index(j)] + ParagraphOf(v.items[j]).error.loc, ParagraphOf(v.items[j]).error.msg))
  {
    match v
    case List(xs) => ItemsFrom(ParagraphResults(xs), 0)
    case _ => Fail(MsgList)
  }

  // ---------------------------------------------------------------------------------------
  // Variant selection (the `type_*` factories)
  // ---------------------------------------------------------------------------------------

  /** `tokens[outer][inner]` when it is a string. */
  function Inner(t: Tokens, outer: string, inner: string): (r: Option<string>)
    ensures r.Some? <==> (HasKey(t, outer) && Get(t, outer).Obj? && HasKey(Get(t, outer).fields, inner)
      && Get(Get(t, outer).fields, inner).Str?)
    ensures r.Some? ==> Get(Get(t, outer).fields, inner) == Str(r.value)
  {
    if HasKey(t, outer) && Get(t, outer).Obj? && HasKey(Get(t, outer).fields, inner) then
      match Get(Get(t, outer).fields, inner)
      case Str(x) => Some(x)
      case _ => None
    else None
  }

  /** `tokens["gallery"]["items"][0]` when it is a string. */
  function FirstItem(t: Tokens): (r: Option<string>)
    ensures r.Some? ==> (HasKey(t, "gallery") && Get(t, "gallery").Obj? && HasKey(Get(t, "gallery").fields, "items")
      && var xs := Get(Get(t, "gallery").fields, "items");
         xs.List? && |xs.items| > 0 && xs.items[0] == Str(r.value))
  {
    if HasKey(t, "gallery") && Get(t, "gallery").Obj? && HasKey(Get(t, "gallery").fields, "items") then
      match Get(Get(t, "gallery").fields, "items")
      case List(xs) => if |xs| > 0 && xs[0].Str? then Some(xs[0].s) else None
      case _ => None
    else None
  }

  /** The appendix is a web-root file exactly when its `href` is not a URL. */
  function AppendixKindOf(t: Tokens): LinkKind {
    match Inner(t, "appendix", "href")
    case Some(h) => if IsUrl(h) then UrlLink else FileLink
    case None => UrlLink
  }

  /** The picture is a URL exactly when its `src` is one. */
  function PictureKindOf(t: Tokens): LinkKind {
    match Inner(t, "picture", "src")
    case Some(h) => if IsUrl(h) then UrlLink else FileLink
    case None => FileLink
  }

  /** The gallery is made of URLs exactly when its first item is one. */
  function GalleryKindOf(t: Tokens): LinkKind {
    match FirstItem(t)
    case Some(h) => if IsUrl(h) then UrlLink else FileLink
    case None => FileLink
  }

  // ---------------------------------------------------------------------------------------
  // `Meta`, `Introduction`, `Chapter` and `Article`
  // ---------------------------------------------------------------------------------------

  /** The error a result carries, if any. */
  function Err<T>(r: Result<T, FieldError>): (e: Option<FieldError>)
    ensures e.None? <==> r.Success?
    ensures e.Some? ==> e.value == r.error
  {
    match r
    case Success(_) => None
    case Failure(e) => Some(e)
  }

  /** Every key is a declared field name. */
  predicate OnlyFields(t: Tokens, names: seq<string>) {
    forall k :: k in Keys(t) ==> k in names
  }

  /** A required `constr(min_length=lo, max_length=hi)` field. */
  function ReqConstr(t: Tokens, name: string, lo: nat, hi: Option<nat>): (r: Result<string, FieldError>)
    ensures r.Success? <==> HasKey(t, name) && Constr(Get(t, name), lo, hi).Success?
    ensures r.Success? ==> Get(t, name) == Str(r.value) && lo <= |r.value| && (hi.Some? ==> |r.value| <= hi.value)
    ensures r.Failure? ==> |r.error.loc| > 0 && r.error.loc[0] == Field(name)
  {
    var v :- Need(t, name);
    Tag(Field(name), Constr(v, lo, hi))
  }

  const MetaFields := ["author", "website", "year", "title", "description", "keywords", "opt_out"]

  function MetaWebsite(t: Tokens): (r: Result<string, FieldError>)
    ensures r.Success? ==> HasKey(t, "website") && StrictUrl(Get(t, "website")) == Success(r.value)
    ensures r.Failure? ==> |r.error.loc| > 0 && r.error.loc[0] == Field("website")
  {
    Req(t, "website", StrictUrl)
  }

  function MetaYear(t: Tokens): (r: Result<string, FieldError>)
    ensures r.Success? ==> HasKey(t, "year") && Get(t, "year") == Str(r.value) && |r.value| >= 4 && ValidYear(r.value)
    ensures r.Failure? ==> |r.error.loc| > 0 && r.error.loc[0] == Field("year")
  {
    Req(t, "year", Year)
  }

  function MetaKeywords(t: Tokens): (r: Result<string, FieldError>)
    ensures r.Success? ==> (HasKey(t, "keywords") && Get(t, "keywords") == Str(r.value)
      && ValidKeywords(5, r.value) && !Duplicates(Words(r.value)))
    ensures r.Failure? ==> |r.error.loc| > 0 && r.error.loc[0] == Field("keywords")
  {
    Req(t, "keywords", Keywords)
  }

  function MetaOptOut(t: Tokens): (r: Result<Option<string>, FieldError>)
    ensures r.Success? && r.value.Some? ==> HasKey(t, "opt_out") && Get(t, "opt_out") == Str(r.value.value)
    ensures r.Success? && r.value.None? ==> !HasKey(t, "opt_out")
    ensures r.Failure? ==> r.error == FieldError([Field("opt_out")], MsgStrType)
  {
    Opt(t, "opt_out", StrValue)
  }

  /** pydantic validates every field and then the extra keys, and the message is built from
      the first error of the list: the first `Some`. */
  function FirstError(es: seq<Option<FieldError>>): (r: Option<FieldError>)
    ensures r.None? <==> forall i :: 0 <= i < |es| ==> es[i].None?
    ensures r.Some? ==> exists i :: 0 <= i < |es| && es[i] == r && forall j :: 0 <= j < i ==> es[j].None?
  {
    if |es| == 0 then None
    else if es[0].Some? then es[0]
    else
      var r := FirstError(es[1..]);
      assert forall i :: 1 <= i < |es| ==> es[i] == es[1..][i - 1];
      if r.Some? then
        var i :| 0 <= i < |es[1..]| && es[1..][i] == r && forall j :: 0 <= j < i ==> es[1..][j].None?;
        assert es[i + 1] == r;
        r
      else r
  }

  /** The first error is the one at the first failing position. */
  lemma FirstErrorIs(es: seq<Option<FieldError>>, i: nat)
    requires i < |es| && es[i].Some? && forall j :: 0 <= j < i ==> es[j].None?
    ensures FirstError(es) == es[i]
  {
    var r := FirstError(es);
    if r.Some? {
      var k :| 0 <= k < |es| && es[k] == r && forall j :: 0 <= j < k ==> es[j].None?;
      assert k == i;
    }
  }

  /** Each `Meta` field checked on its own, in declaration order, then the extra keys. */
  function MetaErrors(t: Tokens): (es: seq<Option<FieldError>>)
    ensures |es| == |MetaFields| + 1
  {
    [Err(ReqConstr(t, "author", 2, Some(48))), Err(MetaWebsite(t)), Err(MetaYear(t)),
     Err(ReqConstr(t, "title", 24, Some(60))), Err(ReqConstr(t, "description", 50, Some(160))),
     Err(MetaKeywords(t)), Err(MetaOptOut(t)), Err(NoExtra(t, MetaFields))]
  }

  /** The validated value of a field that passed (the default is never used: a record is only
      built when every field passed). */
  function Ok<T>(r: Result<T, FieldError>, default: T): (v: T)
    ensures r.Success? ==> v == r.value
  {
    match r
    case Success(v) => v
    case Failure(_) => default
  }

  /** `Meta(**tokens)`: the first error, or the record of the validated fields. */
  function MetaOf(t: Tokens): (r: Result<Meta, FieldError>)
    ensures r.Success? <==> FirstError(MetaErrors(t)).None?
    ensures r.Failure? ==> r.error == FirstError(MetaErrors(t)).value
  {
    match FirstError(MetaErrors(t))
    case Some(e) => Failure(e)
    case None =>
      Success(Meta(Ok(ReqConstr(t, "author", 2, Some(48)), ""), Ok(MetaWebsite(t), ""), Ok(MetaYear(t), ""),
                   Ok(ReqConstr(t, "title", 24, Some(60)), ""), Ok(ReqConstr(t, "description", 50, Some(160)), ""),
                   Ok(MetaKeywords(t), ""), Ok(MetaOptOut(t), None)))
  }

  /** An accepted `Meta` keeps the given author, title and description, each within its
      bounds. */
  lemma MetaLengths(t: Tokens)
    requires MetaOf(t).Success?
    ensures var m := MetaOf(t).value;
      && HasKey(t, "author") && Get(t, "author") == Str(m.author) && 2 <= |m.author| <= 48
      && HasKey(t, "title") && Get(t, "title") == Str(m.title) && 24 <= |m.title| <= 60
      && HasKey(t, "description") && Get(t, "description") == Str(m.description) && 50 <= |m.description| <= 160
  {
    var es := MetaErrors(t);
    assert es[0].None? && es[3].None? && es[4].None?;
  }

  /** An accepted `Meta` has an https website, a valid year, five distinct keywords, and no key
      that is not one of its fields. */
  lemma MetaFormats(t: Tokens)
    requires MetaOf(t).Success?
    ensures var m := MetaOf(t).value;
      && StrictUrl(Str(m.website)) == Success(m.website)
      && HasKey(t, "year") && Get(t, "year") == Str(m.year) && |m.year| >= 4 && ValidYear(m.year)
      && HasKey(t, "keywords") && Get(t, "keywords") == Str(m.keywords)
      && ValidKeywords(5, m.keywords) && !Duplicates(Words(m.keywords))
      && OnlyFields(t, MetaFields)
  {
    var es := MetaErrors(t);
    assert es[1].None? && es[2].None? && es[5].None? && es[7].None?;
    StrictUrlStable(Get(t, "website"));
  }

  /** An accepted URL is accepted again unchanged. */
  lemma StrictUrlStable(v: Value)
    requires StrictUrl(v).Success?
    ensures StrictUrl(Str(StrictUrl(v).value)) == StrictUrl(v)
  {
    var u := StrictUrl(v).value;
    LStripMeaning(RStrip(v.s));
    RStripMeaning(v.s);
    StripStable(v.s);
  }

  /** `strip` is idempotent. */
  lemma StripStable(s: string)
    ensures Strip(Strip(s)) == Strip(s)
  {
    var r := RStrip(s);
    var u := LStrip(r);
    RStripMeaning(s);
    LStripMeaning(r);
    RStripMeaning(u);
    if |u| > 0 {
      assert u[|u| - 1] == r[|r| - 1];
    }
    assert RStrip(u) == u;
    LStripMeaning(u);
  }

  /** pydantic reports the first field, in declaration order, whose own check fails; the
      extra keys come last. */
  lemma MetaFirstError(t: Tokens, i: nat)
    requires i < |MetaFields| + 1 && MetaErrors(t)[i].Some?
    requires forall j :: 0 <= j < i ==> MetaErrors(t)[j].None?
    ensures MetaOf(t) == Failure(MetaErrors(t)[i].value)
  {
    FirstErrorIs(MetaErrors(t), i);
  }

  /** Tokens with no `author` report it missing, whatever else they hold. */
  lemma MetaMissingAuthor(t: Tokens)
    requires !HasKey(t, "author")
    ensures MetaOf(t) == Failure(FieldError([Field("author")], MsgRequired))
  {
    MetaFirstError(t, 0);
  }

  // `Introduction`

  const IntroductionFields := ["content", "appendix"]

  /** `appendix: Optional[Appendix]`, with the variant the appendix itself selects. */
  function OptAppendix(fs: FileSystem, t: Tokens): (r: Result<Option<Appendix>, FieldError>)
    ensures r.Success? && r.value.None? ==> !HasKey(t, "appendix")
    ensures r.Success? && r.value.Some? ==>
      HasKey(t, "appendix") && AppendixOf(fs, AppendixKindOf(t), Get(t, "appendix")) == Success(r.value.value)
    ensures r.Failure? ==> |r.error.loc| > 0 && r.error.loc[0] == Field("appendix")
  {
    Opt(t, "appendix", x => AppendixOf(fs, AppendixKindOf(t), x))
  }

  function IntroductionErrors(fs: FileSystem, t: Tokens): (es: seq<Option<FieldError>>)
    ensures |es| == |IntroductionFields| + 1
  {
    [Err(ReqConstr(t, "content", 50, Some(600))), Err(OptAppendix(fs, t)), Err(NoExtra(t, IntroductionFields))]
  }

  /** `Introduction(**tokens)`, or the `type_with_appendix_filepath` variant of it. */
  function IntroductionOf(fs: FileSystem, t: Tokens): (r: Result<Introduction, FieldError>)
    ensures r.Success? <==> FirstError(IntroductionErrors(fs, t)).None?
    ensures r.Failure? ==> r.error == FirstError(IntroductionErrors(fs, t)).value
  {
    match FirstError(IntroductionErrors(fs, t))
    case Some(e) => Failure(e)
    case None => Success(Introduction(Ok(ReqConstr(t, "content", 50, Some(600)), ""), Ok(OptAppendix(fs, t), None)))
  }

  /** An accepted introduction keeps its content (50 to 600 characters), holds only its two
      fields, and its appendix is a web-root file exactly when the `href` is not a URL. */
  lemma IntroductionAccepted(fs: FileSystem, t: Tokens)
    requires IntroductionOf(fs, t).Success?
    ensures var n := IntroductionOf(fs, t).value;
      && HasKey(t, "content") && Get(t, "content") == Str(n.content) && 50 <= |n.content| <= 600
      && OnlyFields(t, IntroductionFields)
      && (n.appendix.Some? ==> AppendixChosen(fs, t, n.appendix.value))
  {
    var es := IntroductionErrors(fs, t);
    assert es[0].None? && es[1].None? && es[2].None?;
    var a := OptAppendix(fs, t).value;
    if a.Some? {
      AppendixVariant(fs, t, a.value);
    }
  }

  /** The appendix record agrees with the variant rule: its kind is `FileLink` exactly when
      the `href` token is a string that is not a URL, and the `href` is valid for that kind. */
  predicate AppendixChosen(fs: FileSystem, t: Tokens, a: Appendix) {
    Inner(t, "appendix", "href").Some?
    && (a.kind == FileLink <==> !IsUrl(Inner(t, "appendix", "href").value))
    && Link(fs, a.kind, Str(Inner(t, "appendix", "href").value)) == Success(a.href)
  }

  lemma AppendixVariant(fs: FileSystem, t: Tokens, a: Appendix)
    requires HasKey(t, "appendix") && AppendixOf(fs, AppendixKindOf(t), Get(t, "appendix")) == Success(a)
    ensures AppendixChosen(fs, t, a)
  {
    var v := Get(t, "appendix");
    var h := Get(v.fields, "href");
    assert Link(fs, a.kind, h) == Success(a.href);
    assert h.Str?;
  }

  /** The introduction reports the first failing field; the extra keys come last. */
  lemma IntroductionFirstError(fs: FileSystem, t: Tokens, i: nat)
    requires i < |IntroductionFields| + 1 && IntroductionErrors(fs, t)[i].Some?
    requires forall j :: 0 <= j < i ==> IntroductionErrors(fs, t)[j].None?
    ensures IntroductionOf(fs, t) == Failure(IntroductionErrors(fs, t)[i].value)
  {
    FirstErrorIs(IntroductionErrors(fs, t), i);
  }

  // `Chapter`

  const ChapterFields := ["author", "topic", "date", "website", "appendix", "picture",
                          "interactive_example", "gallery", "quote", "paragraphs"]

  function ChapterDate(t: Tokens): (r: Result<Date, FieldError>)
    ensures r.Success? ==> HasKey(t, "date") && ParseDate(Get(t, "date")) == Success(r.value)
    ensures r.Failure? ==> |r.error.loc| > 0 && r.error.loc[0] == Field("date")
  {
    Req(t, "date", ParseDate)
  }

  function ChapterWebsite(t: Tokens): (r: Result<Option<string>, FieldError>)
    ensures r.Success? && r.value.Some? ==> HasKey(t, "website") && StrictUrl(Get(t, "website")) == Success(r.value.value)
    ensures r.Failure? ==> |r.error.loc| > 0 && r.error.loc[0] == Field("website")
  {
    Opt(t, "website", StrictUrl)
  }

  /** `picture: Optional[Picture]`, or `PictureUrl` in the variant its `src` selects. */
  function ChapterPicture(fs: FileSystem, t: Tokens): (r: Result<Option<Picture>, FieldError>)
    ensures r.Success? && r.value.Some? ==>
      HasKey(t, "picture") && PictureOf(fs, PictureKindOf(t), Get(t, "picture")) == Success(r.value.value)
    ensures r.Failure? ==> |r.error.loc| > 0 && r.error.loc[0] == Field("picture")
  {
    Opt(t, "picture", x => PictureOf(fs, PictureKindOf(t), x))
  }

  /** `interactive_example: Optional[WebRootPath]`, a directory under the web root. */
  function ChapterExample(fs: FileSystem, t: Tokens): (r: Result<Option<string>, FieldError>)
    ensures r.Success? && r.value.Some? ==>
      HasKey(t, "interactive_example") && WebRootPath(fs, Get(t, "interactive_example"), false) == Success(r.value.value)
    ensures r.Failure? ==> |r.error.loc| > 0 && r.error.loc[0] == Field("interactive_example")
  {
    Opt(t, "interactive_example", x => WebRootPath(fs, x, false))
  }

  /** `gallery: Optional[Gallery]`, or `GalleryUrl` in the variant its first item selects. */
  function ChapterGallery(fs: FileSystem, t: Tokens): (r: Result<Option<Gallery>, FieldError>)
    ensures r.Success? && r.value.Some? ==>
      HasKey(t, "gallery") && GalleryOf(fs, GalleryKindOf(t), Get(t, "gallery")) == Success(r.value.value)
    ensures r.Failure? ==> |r.error.loc| > 0 && r.error.loc[0] == Field("gallery")
  {
    Opt(t, "gallery", x => GalleryOf(fs, GalleryKindOf(t), x))
  }

  function ChapterQuote(t: Tokens): (r: Result<Option<Quote>, FieldError>)
    ensures r.Success? && r.value.Some? ==> HasKey(t, "quote") && QuoteOf(Get(t, "quote")) == Success(r.value.value)
    ensures r.Failure? ==> |r.error.loc| > 0 && r.error.loc[0] == Field("quote")
  {
    Opt(t, "quote", QuoteOf)
  }

  function ChapterParagraphs(t: Tokens): (r: Result<Option<seq<Paragraph>>, FieldError>)
    ensures r.Success? && r.value.Some? ==> HasKey(t, "paragraphs") && Paragraphs(Get(t, "paragraphs")) == Success(r.value.value)
    ensures r.Failure? ==> |r.error.loc| > 0 && r.error.loc[0] == Field("paragraphs")
  {
    Opt(t, "paragraphs", Paragraphs)
  }

  function ChapterErrors(fs: FileSystem, t: Tokens): (es: seq<Option<FieldError>>)
    ensures |es| == |ChapterFields| + 1
  {
    [Err(ReqConstr(t, "author", 2, Some(48))), Err(ReqConstr(t, "topic", 8, Some(60))), Err(ChapterDate(t)),
     Err(ChapterWebsite(t)), Err(OptAppendix(fs, t)), Err(ChapterPicture(fs, t)), Err(ChapterExample(fs, t)),
     Err(ChapterGallery(fs, t)), Err(ChapterQuote(t)), Err(ChapterParagraphs(t)), Err(NoExtra(t, ChapterFields))]
  }

  /** `Chapter(**tokens)`, in the variant the tokens select. */
  function ChapterOf(fs: FileSystem, t: Tokens): (r: Result<Chapter, FieldError>)
    ensures r.Success? <==> FirstError(ChapterErrors(fs, t)).None?
    ensures r.Failure? ==> r.error == FirstError(ChapterErrors(fs, t)).value
  {
    match FirstError(ChapterErrors(fs, t))
    case Some(e) => Failure(e)
    case None =>
      Success(Chapter(Ok(ReqConstr(t, "author", 2, Some(48)), ""), Ok(ReqConstr(t, "topic", 8, Some(60)), ""),
                      Ok(ChapterDate(t), UnixTime(0)), Ok(ChapterWebsite(t), None), Ok(OptAppendix(fs, t), None),
                      Ok(ChapterPicture(fs, t), None), Ok(ChapterExample(fs, t), None), Ok(ChapterGallery(fs, t), None),
                      Ok(ChapterQuote(t), None), Ok(ChapterParagraphs(t), None)))
  }

  /** A chapter reports the first failing field; the extra keys come last. */
  lemma ChapterFirstError(fs: FileSystem, t: Tokens, i: nat)
    requires i < |ChapterFields| + 1 && ChapterErrors(fs, t)[i].Some?
    requires forall j :: 0 <= j < i ==> ChapterErrors(fs, t)[j].None?
    ensures ChapterOf(fs, t) == Failure(ChapterErrors(fs, t)[i].value)
  {
    FirstErrorIs(ChapterErrors(fs, t), i);
  }

  /** Tokens with no `author` report it missing, whatever else they hold. */
  lemma ChapterMissingAuthor(fs: FileSystem, t: Tokens)
    requires !HasKey(t, "author")
    ensures ChapterOf(fs, t) == Failure(FieldError([Field("author")], MsgRequired))
  {
    ChapterFirstError(fs, t, 0);
  }

  /** An accepted chapter keeps its author (2 to 48 characters) and topic (8 to 60), its date
      is the parsed `date` token (a real calendar day when it is a calendar date), and it holds
      no key that is not one of its fields. */
  lemma ChapterAccepted(fs: FileSystem, t: Tokens)
    requires ChapterOf(fs, t).Success?
    ensures var c := ChapterOf(fs, t).value;
      && HasKey(t, "author") && Get(t, "author") == Str(c.author) && 2 <= |c.author| <= 48
      && HasKey(t, "topic") && Get(t, "topic") == Str(c.topic) && 8 <= |c.topic| <= 60
      && HasKey(t, "date") && ParseDate(Get(t, "date")) == Success(c.date)
      && (c.date.Calendar? ==> ValidCalendar(c.date.year, c.date.month, c.date.day))
      && OnlyFields(t, ChapterFields)
  {
    var es := ChapterErrors(fs, t);
    assert es[0].None? && es[1].None? && es[2].None? && es[10].None?;
  }

  /** The variants of an accepted chapter follow `is_url`: the appendix is a file exactly when
      its `href` is not a URL, the picture a URL exactly when its `src` is one, and the gallery
      made of URLs exactly when its first item is one, every item then being of that kind. */
  lemma ChapterVariants(fs: FileSystem, t: Tokens)
    requires ChapterOf(fs, t).Success?
    ensures var c := ChapterOf(fs, t).value;
      && (c.appendix.Some? ==> AppendixChosen(fs, t, c.appendix.value))
      && (c.picture.Some? ==> PictureChosen(fs, t, c.picture.value))
      && (c.gallery.Some? ==> GalleryChosen(fs, t, c.gallery.value))
  {
    var es := ChapterErrors(fs, t);
    assert es[4].None? && es[5].None? && es[7].None?;
    var c := ChapterOf(fs, t).value;
    if c.appendix.Some? {
      AppendixVariant(fs, t, c.appendix.value);
    }
    if c.picture.Some? {
      PictureVariant(fs, t, c.picture.value);
    }
    if c.gallery.Some? {
      GalleryVariant(fs, t, c.gallery.value);
    }
  }

  predicate PictureChosen(fs: FileSystem, t: Tokens, p: Picture) {
    Inner(t, "picture", "src").Some?
    && (p.kind == UrlLink <==> IsUrl(Inner(t, "picture", "src").value))
    && Link(fs, p.kind, Str(Inner(t, "picture", "src").value)) == Success(p.src)
  }

  lemma PictureVariant(fs: FileSystem, t: Tokens, p: Picture)
    requires HasKey(t, "picture") && PictureOf(fs, PictureKindOf(t), Get(t, "picture")) == Success(p)
    ensures PictureChosen(fs, t, p)
  {
    var v := Get(t, "picture");
    var h := Get(v.fields, "src");
    assert Link(fs, p.kind, h) == Success(p.src);
    assert h.Str?;
  }

  /** An empty gallery cannot be of URLs; otherwise its kind is the first item's. */
  predicate GalleryChosen(fs: FileSystem, t: Tokens, g: Gallery) {
    (|g.items| == 0 ==> g.kind == FileLink)
    && (|g.items| > 0 ==> FirstItem(t).Some? && (g.kind == UrlLink <==> IsUrl(FirstItem(t).value)))
  }

  lemma GalleryVariant(fs: FileSystem, t: Tokens, g: Gallery)
    requires HasKey(t, "gallery") && GalleryOf(fs, GalleryKindOf(t), Get(t, "gallery")) == Success(g)
    ensures GalleryChosen(fs, t, g)
  {
    var v := Get(t, "gallery");
    var xs := Get(v.fields, "items").items;
    if |g.items| > 0 {
      assert Link(fs, g.kind, xs[0]) == Success(g.items[0]);
      assert xs[0].Str?;
    }
  }
}
