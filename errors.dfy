/** The error strings the compiler prints: `err_msg`, `truncate` and `default_err_msg`, which
    turns the first validation error into `<component>: <msg>: "<field path>: <value> (len=n)"`. */
module ErrorMessages {
  import opened Wrappers
  import opened Strings
  import opened Dicts
  import opened Values

  /** One pydantic error: where it is (field names and list indices) and its message. */
  datatype FieldError = FieldError(loc: Loc, msg: string)

  /** `err_msg(component, msg, target)`: the component and the message, then the target in
      quotes; an empty target counts as absent. */
  function ErrMsg(component: string, msg: string, target: string): (r: string)
    ensures StartsWith(r, component + ": " + msg)
    ensures target == "" <==> r == component + ": " + msg
  {
    component + ": " + msg + (if target == "" then "" else ": \"" + target + "\"")
  }

  /** `truncate(s, l)`: `s` itself when it is short enough, else its first `l` characters and an
      ellipsis. */
  function Truncate(s: string, l: nat): (r: string)
    ensures |s| <= l ==> r == s
    ensures |s| > l ==> |r| == l + 3 && r[..l] == s[..l] && r[l..] == "..."
  {
    if |s| > l then s[..l] + "..." else s
  }

  /** Truncating a second time changes nothing. */
  lemma TruncateIdempotent(s: string, l: nat)
    ensures Truncate(Truncate(s, l), l) == Truncate(s, l)
  {
    if |s| > l {
      var r := Truncate(s, l);
      assert r[..l] + "..." == r;
    }
  }

  /** `replace(keys, "_", "-")`, one location step: `str` of the step with `_` turned into `-`. */
  function LocName(p: LocPart): (r: string)
    ensures '_' !in r
  {
    match p
    case Field(n) => ReplaceChar(n, '_', '-')
    case Index(i) => NatToString(i)
  }

  function LocNames(loc: Loc): (ns: seq<string>)
    ensures |ns| == |loc| && forall i :: 0 <= i < |loc| ==> ns[i] == LocName(loc[i])
  {
    seq(|loc|, i requires 0 <= i < |loc| => LocName(loc[i]))
  }

  /** The field path of an error: its location joined with `->`. */
  function Target(loc: Loc): string {
    Join(LocNames(loc), "->")
  }

  /** Joining parts that hold no `c` with a separator that holds no `c` gives no `c`. */
  lemma {:induction false} JoinAvoids(parts: seq<string>, sep: string, c: char)
    requires c !in sep
    requires forall i :: 0 <= i < |parts| ==> c !in parts[i]
    ensures c !in Join(parts, sep)
  {
    if |parts| > 1 {
      JoinAvoids(parts[1..], sep, c);
    }
  }

  /** A printed field path never holds `_`: every field name is shown in its `-` spelling. */
  lemma TargetHyphenated(loc: Loc)
    ensures '_' !in Target(loc)
  {
    JoinAvoids(LocNames(loc), "->", '_');
  }

  /** `truncate(v, 14)` as the f-string prints it: strings are cut, the small dicts and lists
      the tokenizers build are shown whole. */
  function ShowTruncated(v: Value): string {
    match v
    case Str(s) => Truncate(s, 14)
    case _ => Show(v)
  }

  /** `default_err_msg(err, cmp, tokens)` for the first error `e`: the value is shown only when
      tokens are given and the error's first key is one of them. */
  function DefaultErrMsg(e: FieldError, cmp: string, tokens: Option<Tokens>): (r: string)
    ensures StartsWith(r, cmp + ": " + e.msg)
    ensures tokens.None? || tokens.value == [] ==> r == ErrMsg(cmp, e.msg, Target(e.loc))
  {
    var target := Target(e.loc);
    if tokens.Some? && |tokens.value| > 0 && |e.loc| > 0 && e.loc[0].Field? && HasKey(tokens.value, e.loc[0].name) then
      match Lookup(Obj(tokens.value), e.loc)
      case Some(v) => ErrMsg(cmp, e.msg, target + ": " + ShowTruncated(v) + " (len=" + NatToString(Len(v)) + ")")
      case None => ErrMsg(cmp, e.msg, target)
    else ErrMsg(cmp, e.msg, target)
  }

  /** What the message says about a string value: the message, the `->` path, at most 14
      characters of the value and its untruncated length; without tokens (or for a key not in
      them) only the message and the path. */
  lemma DefaultErrMsgValue(e: FieldError, cmp: string, tokens: Tokens, s: string)
    requires |e.loc| > 0 && e.loc[0].Field? && HasKey(tokens, e.loc[0].name)
    requires Lookup(Obj(tokens), e.loc) == Some(Str(s))
    ensures DefaultErrMsg(e, cmp, Some(tokens)) ==
      ErrMsg(cmp, e.msg, Target(e.loc) + ": " + Truncate(s, 14) + " (len=" + NatToString(|s|) + ")")
    ensures DefaultErrMsg(e, cmp, None) == ErrMsg(cmp, e.msg, Target(e.loc))
  {
  }

  /** A top-level key the tokens do not hold (a missing required field) is shown without a
      value. */
  lemma DefaultErrMsgMissing(e: FieldError, cmp: string, tokens: Tokens)
    requires |e.loc| > 0 && e.loc[0].Field? && !HasKey(tokens, e.loc[0].name)
    ensures DefaultErrMsg(e, cmp, Some(tokens)) == ErrMsg(cmp, e.msg, Target(e.loc))
  {
  }

  /** `invalid date format: "date: 2020-24-31 (len=10)"`: a short value is shown whole. */
  lemma DateErrorExample()
    ensures DefaultErrMsg(FieldError([Field("date")], "invalid date format"), "Error in /chapter",
                          Some([("author", Str("Robin Gruenke")), ("date", Str("2020-24-31"))]))
      == ErrMsg("Error in /chapter", "invalid date format", "date: 2020-24-31 (len=10)")
  {
    var tokens := [("author", Str("Robin Gruenke")), ("date", Str("2020-24-31"))];
    var e := FieldError([Field("date")], "invalid date format");
    DateErrorLookup(tokens, e);
    DefaultErrMsgValue(e, "Error in /chapter", tokens, "2020-24-31");
    DateErrorText();
  }

  /** The target and the value the date error of `DateErrorExample` points at. */
  lemma DateErrorLookup(tokens: Tokens, e: FieldError)
    requires tokens == [("author", Str("Robin Gruenke")), ("date", Str("2020-24-31"))]
    requires e == FieldError([Field("date")], "invalid date format")
    ensures HasKey(tokens, "date") && Target(e.loc) == "date"
    ensures Lookup(Obj(tokens), e.loc) == Some(Str("2020-24-31"))
  {
    assert tokens[1].0 == "date";
    IndexOfKeyIs(tokens, "date", 1);
    ReplaceCharAbsent("date", '_', '-');
    assert LocNames(e.loc) == ["date"];
  }

  /** The value part of the date error of `DateErrorExample`. */
  lemma DateErrorText()
    ensures "date" + ": " + Truncate("2020-24-31", 14) + " (len=" + NatToString(|"2020-24-31"|) + ")"
      == "date: 2020-24-31 (len=10)"
  {
    assert NatToString(10) == "10";
  }

  /** `"gallery->items->1: galler/raspize... (len=20)"`: a path through a list, and a long value
      cut to 14 characters. */
  lemma NestedErrorExample(tokens: Tokens)
    requires HasKey(tokens, "gallery")
    requires Lookup(Obj(tokens), [Field("gallery"), Field("items"), Index(1)]) == Some(Str("galler/raspizero.jpg"))
    ensures DefaultErrMsg(FieldError([Field("gallery"), Field("items"), Index(1)], "m"), "Error in /chapter", Some(tokens))
      == ErrMsg("Error in /chapter", "m", "gallery->items->1: galler/raspize... (len=20)")
  {
    var item := "galler/raspizero.jpg";
    var e := FieldError([Field("gallery"), Field("items"), Index(1)], "m");
    NestedTarget(e.loc);
    DefaultErrMsgValue(e, "Error in /chapter", tokens, item);
    NestedValueShown(Target(e.loc), item);
  }

  lemma NestedValueShown(t: string, item: string)
    requires t == "gallery->items->1" && item == "galler/raspizero.jpg"
    ensures t + ": " + Truncate(item, 14) + " (len=" + NatToString(|item|) + ")"
      == "gallery->items->1: galler/raspize... (len=20)"
  {
    TruncateItem(item);
    assert |item| == 20;
    NatTwenty();
    ConcatShown(t, Truncate(item, 14), NatToString(|item|));
  }

  lemma TruncateItem(item: string)
    requires item == "galler/raspizero.jpg"
    ensures Truncate(item, 14) == "galler/raspize..."
  {
    assert item[..14] == "galler/raspize";
  }

  lemma NatTwenty()
    ensures NatToString(20) == "20"
  {
  }

  lemma ConcatShown(t: string, a: string, n: string)
    requires t == "gallery->items->1" && a == "galler/raspize..." && n == "20"
    ensures t + ": " + a + " (len=" + n + ")" == "gallery->items->1: galler/raspize... (len=20)"
  {
  }

  /** The location of the test's second gallery item resolves in a gallery token. */
  lemma NestedLookup(gallery: Tokens, loc: Loc, item: string)
    requires loc == [Field("gallery"), Field("items"), Index(1)]
    requires HasKey(gallery, "items") && Get(gallery, "items") == List([Str("gallery/raspizero.jpg"), Str(item)])
    ensures Lookup(Obj([("gallery", Obj(gallery))]), loc) == Some(Str(item))
  {
    var tokens := [("gallery", Obj(gallery))];
    IndexOfKeyIs(tokens, "gallery", 0);
    var l1, l2 := loc[1..], loc[1..][1..];
    assert l1 == [Field("items"), Index(1)] && l2 == [Index(1)] && l2[1..] == [];
    var xs := Get(gallery, "items");
    assert Lookup(xs, l2) == Lookup(Str(item), l2[1..]) == Some(Str(item));
    assert Lookup(Obj(gallery), l1) == Lookup(xs, l2);
    assert Get(tokens, "gallery") == Obj(gallery);
    assert Lookup(Obj(tokens), loc) == Lookup(Obj(gallery), l1);
  }

  lemma NestedTarget(loc: Loc)
    requires loc == [Field("gallery"), Field("items"), Index(1)]
    ensures Target(loc) == "gallery->items->1"
  {
    ReplaceCharAbsent("gallery", '_', '-');
    ReplaceCharAbsent("items", '_', '-');
    assert NatToString(1) == "1";
    var ns := LocNames(loc);
    assert ns == ["gallery", "items", "1"];
    assert ns[1..] == ["items", "1"] && ns[1..][1..] == ["1"];
    assert Join(ns[1..][1..], "->") == "1";
    assert Join(ns[1..], "->") == "items" + "->" + "1";
    assert Join(ns, "->") == "gallery" + "->" + ("items" + "->" + "1");
  }
}
