/**
 Reading printed property lists back: a reader of the old property list format, written from
 the format and not from the printer, though without what the printer never writes: strings in single
 quotes, and escapes that stand for other characters than the one escaped.
 */
module PlistReader {
  import opened CStrings
  import opened PropertyList
  import opened PlistText
  import opened TextOrder
  import opened Wrappers

  // ------------------------------------------------------------- blanks and comments

  predicate LineEnd(c: char) {
    c == '\n' || c == '\r'
  }

  predicate Blank(c: char) {
    c == ' ' || c == '\t' || LineEnd(c)
  }

  predicate OpensLine(t: string) {
    |t| >= 2 && t[0] == '/' && t[1] == '/'
  }

  predicate OpensBlock(t: string) {
    |t| >= 2 && t[0] == '/' && t[1] == '*'
  }

  predicate OpensComment(t: string) {
    OpensLine(t) || OpensBlock(t)
  }

  function AfterLine(t: string): (r: string)
    ensures |r| <= |t|
  {
    if t == [] then [] else if LineEnd(t[0]) then t[1..] else AfterLine(t[1..])
  }

  function AfterBlock(t: string): (r: string)
    ensures |r| <= |t|
  {
    if t == [] then []
    else if |t| >= 2 && t[0] == '*' && t[1] == '/' then t[2..]
    else AfterBlock(t[1..])
  }

  /** Something a reader stops at; a plain reader does not know comments. */
  predicate Visible(t: string, comments: bool) {
    t != [] && !Blank(t[0]) && !(comments && OpensComment(t))
  }

  function Skip(t: string, comments: bool): (r: string)
    ensures |r| <= |t|
    ensures r == [] || Visible(r, comments)
    ensures Visible(t, comments) ==> r == t
    decreases |t|
  {
    if t == [] then []
    else if Blank(t[0]) then Skip(t[1..], comments)
    else if comments && OpensLine(t) then Skip(AfterLine(t[2..]), comments)
    else if comments && OpensBlock(t) then Skip(AfterBlock(t[2..]), comments)
    else t
  }

  // ------------------------------------------------------------- the reader

  /** Characters of unquoted strings; the printer leaves fewer of them unquoted. */
  predicate Bare(c: char) {
    Safe(c) || c == '$' || c == ':' || c == '-'
  }

  /** The length of the unquoted string at the start of a text. */
  function BareLength(t: string): (n: nat)
    ensures n <= |t|
  {
    if t != [] && Bare(t[0]) then 1 + BareLength(t[1..]) else 0
  }

  /** A quoted string after its opening quote, and what follows it. */
  function ReadQuoted(t: string): (r: Option<(string, string)>)
    ensures r.Some? ==> |r.value.1| < |t|
  {
    if t == [] then None
    else if t[0] == '"' then Some(([], t[1..]))
    else if t[0] == '\\' then
      if |t| == 1 then None
      else
        match ReadQuoted(t[2..])
        case None => None
        case Some((s, rest)) => Some(([t[1]] + s, rest))
    else
      match ReadQuoted(t[1..])
      case None => None
      case Some((s, rest)) => Some(([t[0]] + s, rest))
  }

  function ReadString(t: string): (r: Option<(string, string)>)
    ensures r.Some? ==> |r.value.1| < |t|
  {
    if t == [] then None
    else if t[0] == '"' then ReadQuoted(t[1..])
    else
      var n := BareLength(t);
      if n == 0 then None else Some((t[..n], t[n..]))
  }

  /** Past blanks and one expected character. */
  function Expect(c: char, t: string, comments: bool): (r: Option<string>)
    ensures r.Some? ==> |r.value| < |t|
  {
    var u := Skip(t, comments);
    if u != [] && u[0] == c then Some(u[1..]) else None
  }

  function ReadEntries(t: string, comments: bool): (r: Option<(map<string, Plist>, string)>)
    ensures r.Some? ==> |r.value.1| < |t|
    decreases |t|, 2
  {
    var closed := Expect('}', t, comments);
    if closed.Some? then Some((map[], closed.value))
    else
      match ReadString(Skip(t, comments))
      case None => None
      case Some((key, rest)) =>
        match Expect('=', rest, comments)
        case None => None
        case Some(right) =>
          match ReadValue(right, comments)
          case None => None
          case Some((value, after)) =>
            match Expect(';', after, comments)
            case None => None
            case Some(more) =>
              match ReadEntries(more, comments)
              case None => None
              case Some((entries, end)) => Some((entries[key := value], end))
  }

  function ReadValue(t: string, comments: bool): (r: Option<(Plist, string)>)
    ensures r.Some? ==> |r.value.1| < |t|
    decreases |t|, 1
  {
    var u := Skip(t, comments);
    if u == [] then None
    else if u[0] == '(' then
      match ReadItems(u[1..], comments)
      case None => None
      case Some((items, rest)) => Some((Arr(items), rest))
    else if u[0] == '{' then
      match ReadEntries(u[1..], comments)
      case None => None
      case Some((entries, rest)) => Some((Dict(entries), rest))
    else
      match ReadString(u)
      case None => None
      case Some((s, rest)) => Some((Str(s), rest))
  }

  function ReadItems(t: string, comments: bool): (r: Option<(seq<Plist>, string)>)
    ensures r.Some? ==> |r.value.1| < |t|
    decreases |t|, 2
  {
    var closed := Expect(')', t, comments);
    if closed.Some? then Some(([], closed.value))
    else
      match ReadValue(t, comments)
      case None => None
      case Some((item, rest)) =>
        match Expect(',', rest, comments)
        case None => None
        case Some(more) =>
          match ReadItems(more, comments)
          case None => None
          case Some((items, end)) => Some(([item] + items, end))
  }

  /** One plist, with comments and blanks around it: the header is such a comment. */
  function ReadPlist(t: string): Option<Plist> {
    match ReadValue(t, true)
    case None => None
    case Some((p, rest)) => if Skip(rest, true) == [] then Some(p) else None
  }

  // ------------------------------------------------------------- reading gives back what was printed

  /** Printed without quotes, it starts a comment. */
  predicate LooksLikeComment(s: string) {
    OpensLine(s) && !NeedsQuotes(s)
  }

  predicate Restorable(s: string, comments: bool) {
    NUL !in s && !(comments && LooksLikeComment(s))
  }

  /** Every string in it, keys included, can be told from its printed form. */
  ghost predicate AllRestorable(p: Plist, comments: bool) {
    match p
    case Str(s) => Restorable(s, comments)
    case Arr(items) => forall q :: q in items ==> AllRestorable(q, comments)
    case Dict(entries) => forall k :: k in entries ==> Restorable(k, comments) && AllRestorable(entries[k], comments)
  }

  /** A text that cannot continue an unquoted string, or turn one into a comment. */
  predicate Ends(t: string) {
    t == [] || (!Bare(t[0]) && t[0] != '*')
  }

  lemma {:induction false} BareBack(s: string, rest: string)
    requires Ends(rest) && forall i :: 0 <= i < |s| ==> Safe(s[i])
    ensures BareLength(s + rest) == |s|
  {
    if s == [] {
      assert s + rest == rest;
    } else {
      assert (s + rest)[1..] == s[1..] + rest;
      BareBack(s[1..], rest);
    }
  }

  lemma CodedBack(c: char, rest: string)
    requires ReadQuoted(rest).Some?
    ensures ReadQuoted(Code(c) + rest) == Some(([c] + ReadQuoted(rest).value.0, ReadQuoted(rest).value.1))
  {
    if c == '"' || c == '\\' {
      var t := "\\" + [c] + rest;
      assert t[0] == '\\' && t[1] == c && t[2..] == rest;
    } else {
      var t := "" + [c] + rest;
      assert t[0] == c && t[1..] == rest;
    }
  }

  lemma {:induction false} QuotedBack(s: string, rest: string)
    requires ReadQuoted(rest).Some?
    ensures ReadQuoted(Escaped(s) + rest) == Some((s + ReadQuoted(rest).value.0, ReadQuoted(rest).value.1))
  {
    if s == [] {
      assert Escaped(s) + rest == rest && s + ReadQuoted(rest).value.0 == ReadQuoted(rest).value.0;
    } else {
      var fewer, c := s[..|s| - 1], s[|s| - 1];
      CodedBack(c, rest);
      QuotedBack(fewer, Code(c) + rest);
      EscapedLast(s);
      Assoc(Escaped(fewer), Code(c), rest);
      Assoc(fewer, [c], ReadQuoted(rest).value.0);
      assert s == fewer + [c];
    }
  }

  lemma HeadTail(c: char, t: string)
    ensures ([c] + t)[0] == c && ([c] + t)[1..] == t
  {
  }

  lemma QuotedStringBack(s: string, rest: string)
    ensures ReadString("\"" + Escaped(s) + "\"" + rest) == Some((s, rest))
  {
    var quote := ['"'];
    HeadTail('"', rest);
    QuotedBack(s, quote + rest);
    Assoc(Escaped(s), quote, rest);
    Assoc(quote, Escaped(s), quote);
    Assoc(quote, Escaped(s) + quote, rest);
    HeadTail('"', Escaped(s) + quote + rest);
    assert s + [] == s;
  }

  lemma BareStringBack(s: string, rest: string)
    requires s != [] && Ends(rest) && forall i :: 0 <= i < |s| ==> Safe(s[i])
    ensures Escaped(s) == s
    ensures ReadString(s + rest) == Some((s, rest))
  {
    SafeIsUnescaped(s);
    BareBack(s, rest);
    assert (s + rest)[0] == s[0] && Safe(s[0]);
    assert (s + rest)[..|s|] == s && (s + rest)[|s|..] == rest;
  }

  lemma BareIsVisible(s: string, rest: string)
    requires s != [] && Ends(rest) && forall i :: 0 <= i < |s| ==> Safe(s[i])
    ensures (s + rest)[0] == s[0]
    ensures OpensComment(s + rest) ==> OpensLine(s)
  {
    var t := s + rest;
    if |t| >= 2 {
      assert Safe(s[0]) && t[1] == if |s| >= 2 then s[1] else rest[0];
      if |s| >= 2 {
        assert Safe(s[1]);
      }
    }
  }

  lemma StringBack(s: string, rest: string, comments: bool)
    requires Restorable(s, comments) && Ends(rest)
    ensures ReadString(StringText(s) + rest) == Some((s, rest))
  {
    if NeedsQuotes(s) {
      QuotedStringBack(s, rest);
    } else {
      BareStringBack(s, rest);
    }
  }

  lemma QuoteFirst(inner: string, rest: string)
    ensures (['"'] + inner + ['"'] + rest) != [] && (['"'] + inner + ['"'] + rest)[0] == '"'
  {
  }

  lemma BareText(s: string)
    requires NUL !in s && !NeedsQuotes(s)
    ensures StringText(s) == s
  {
    SafeIsUnescaped(s);
  }

  lemma BareStarts(s: string, rest: string, comments: bool)
    requires !NeedsQuotes(s) && Restorable(s, comments) && Ends(rest)
    ensures Visible(s + rest, comments) && Safe((s + rest)[0])
  {
    BareIsVisible(s, rest);
    assert Safe(s[0]);
  }

  lemma StringStarts(s: string, rest: string, comments: bool)
    requires Restorable(s, comments) && Ends(rest)
    ensures Visible(StringText(s) + rest, comments)
    ensures (StringText(s) + rest)[0] == '"' || Safe((StringText(s) + rest)[0])
  {
    if NeedsQuotes(s) {
      QuoteFirst(Escaped(s), rest);
    } else {
      BareText(s);
      BareStarts(s, rest, comments);
    }
  }

  lemma StrBack(s: string, tabs: nat, rest: string, comments: bool)
    requires Restorable(s, comments) && Ends(rest)
    ensures ReadValue(Text(Str(s), tabs) + rest, comments) == Some((Str(s), rest))
  {
    StringBack(s, rest, comments);
    StringStarts(s, rest, comments);
  }

  ghost predicate AllBlank(b: string) {
    forall i :: 0 <= i < |b| ==> Blank(b[i])
  }

  lemma {:induction false} SkipAll(b: string, t: string, comments: bool)
    requires AllBlank(b)
    ensures Skip(b + t, comments) == Skip(t, comments)
  {
    if b == [] {
      assert b + t == t;
    } else {
      assert (b + t)[1..] == b[1..] + t;
      SkipAll(b[1..], t, comments);
    }
  }

  /** Blanks before a value, an item or an entry make no difference. */
  lemma BlanksBeforeValue(b: string, t: string, comments: bool)
    requires AllBlank(b)
    ensures ReadValue(b + t, comments) == ReadValue(t, comments)
  {
    SkipAll(b, t, comments);
  }

  lemma BlanksBeforeItems(b: string, t: string, comments: bool)
    requires AllBlank(b)
    ensures ReadItems(b + t, comments) == ReadItems(t, comments)
  {
    SkipAll(b, t, comments);
    BlanksBeforeValue(b, t, comments);
  }

  lemma BlanksBeforeEntries(b: string, t: string, comments: bool)
    requires AllBlank(b)
    ensures ReadEntries(b + t, comments) == ReadEntries(t, comments)
  {
    SkipAll(b, t, comments);
  }

  lemma ExpectBack(c: char, t: string, comments: bool)
    requires !Blank(c) && c != '/'
    ensures Expect(c, [c] + t, comments) == Some(t)
    ensures Expect(c, [' ', c] + t, comments) == Some(t)
  {
    assert ([c] + t)[0] == c && ([c] + t)[1..] == t;
    assert [' ', c] + t == " " + ([c] + t);
    SkipAll(" ", [c] + t, comments);
  }

  lemma TabsAreBlank(n: nat)
    ensures AllBlank(Tabs(n)) && AllBlank(Tabs(n) + "\t") && AllBlank("\t" + Tabs(n))
  {
  }

  /** The first character of a value: visible, and not one that closes something. */
  lemma TextStarts(p: Plist, tabs: nat, rest: string, comments: bool)
    requires AllRestorable(p, comments) && Ends(rest)
    ensures var t := Text(p, tabs) + rest; Visible(t, comments) && t[0] != ')'
  {
    if p.Str? {
      StringStarts(p.text, rest, comments);
    }
  }

  lemma ItemStep(t: string, item: Plist, rest: string, more: string, comments: bool)
    requires Visible(t, comments) && t[0] != ')'
    requires ReadValue(t, comments) == Some((item, rest)) && Expect(',', rest, comments) == Some(more)
    requires ReadItems(more, comments).Some?
    ensures ReadItems(t, comments) ==
      Some(([item] + ReadItems(more, comments).value.0, ReadItems(more, comments).value.1))
  {
  }

  lemma ItemLine(b: string, text: string, after: string, p: Plist, rest: string, comments: bool)
    requires AllBlank(b) && Visible(text + after, comments) && (text + after)[0] != ')'
    requires ReadValue(text + after, comments) == Some((p, after))
    requires Expect(',', after, comments) == Some("\n" + rest) && ReadItems(rest, comments).Some?
    ensures ReadItems(b + (text + after), comments) ==
      Some(([p] + ReadItems(rest, comments).value.0, ReadItems(rest, comments).value.1))
  {
    BlanksBeforeItems("\n", rest, comments);
    ItemStep(text + after, p, after, "\n" + rest, comments);
    BlanksBeforeItems(b, text + after, comments);
  }

  lemma CommaLine(rest: string, comments: bool)
    ensures Expect(',', ",\n" + rest, comments) == Some("\n" + rest)
    ensures Expect(';', ";\n" + rest, comments) == Some("\n" + rest)
  {
    Assoc([','], "\n", rest);
    Assoc([';'], "\n", rest);
    assert [','] + "\n" == ",\n" && [';'] + "\n" == ";\n";
    ExpectBack(',', "\n" + rest, comments);
    ExpectBack(';', "\n" + rest, comments);
  }

  lemma CommaEnds(rest: string)
    ensures Ends(",\n" + rest) && Ends(";\n" + rest)
  {
  }

  lemma ItemBack(p: Plist, tabs: nat, rest: string, comments: bool)
    requires AllRestorable(p, comments) && ReadItems(rest, comments).Some?
    requires ReadValue(Text(p, tabs + 1) + (",\n" + rest), comments) == Some((p, ",\n" + rest))
    ensures ReadItems((Tabs(tabs) + "\t") + Text(p, tabs + 1) + ",\n" + rest, comments) ==
      Some(([p] + ReadItems(rest, comments).value.0, ReadItems(rest, comments).value.1))
  {
    var b, text, comma := Tabs(tabs) + "\t", Text(p, tabs + 1), ",\n";
    Regroup(b, text, comma, rest);
    Assoc(text, comma, rest);
    TabsAreBlank(tabs);
    CommaEnds(rest);
    TextStarts(p, tabs + 1, comma + rest, comments);
    CommaLine(rest, comments);
    ItemLine(b, text, comma + rest, p, rest, comments);
  }

  lemma EntryStep(t: string, key: string, rest: string, right: string, value: Plist, after: string, more: string,
                  comments: bool)
    requires Visible(t, comments) && t[0] != '}'
    requires ReadString(t) == Some((key, rest)) && Expect('=', rest, comments) == Some(right)
    requires ReadValue(right, comments) == Some((value, after)) && Expect(';', after, comments) == Some(more)
    requires ReadEntries(more, comments).Some?
    ensures ReadEntries(t, comments) ==
      Some((ReadEntries(more, comments).value.0[key := value], ReadEntries(more, comments).value.1))
  {
  }

  lemma EqualsBack(t: string, comments: bool)
    ensures Expect('=', " = " + t, comments) == Some(" " + t)
  {
    Assoc([' ', '='], " ", t);
    ExpectBack('=', " " + t, comments);
    assert [' ', '='] + (" " + t) == " = " + t;
  }

  lemma EntryLine(b: string, name: string, middle: string, text: string, after: string,
                  key: string, p: Plist, rest: string, comments: bool)
    requires AllBlank(b) && Visible(name + middle, comments) && (name + middle)[0] != '}'
    requires ReadString(name + middle) == Some((key, middle))
    requires Expect('=', middle, comments) == Some(" " + (text + after))
    requires ReadValue(text + after, comments) == Some((p, after)) && Expect(';', after, comments) == Some("\n" + rest)
    requires ReadEntries(rest, comments).Some?
    ensures ReadEntries(b + (name + middle), comments) ==
      Some((ReadEntries(rest, comments).value.0[key := p], ReadEntries(rest, comments).value.1))
  {
    BlanksBeforeValue(" ", text + after, comments);
    BlanksBeforeEntries("\n", rest, comments);
    EntryStep(name + middle, key, middle, " " + (text + after), p, after, "\n" + rest, comments);
    BlanksBeforeEntries(b, name + middle, comments);
  }

  lemma NamedEntry(b: string, text: string, after: string, key: string, p: Plist, rest: string, comments: bool)
    requires AllBlank(b) && Restorable(key, comments) && ReadEntries(rest, comments).Some?
    requires ReadValue(text + after, comments) == Some((p, after)) && Expect(';', after, comments) == Some("\n" + rest)
    ensures ReadEntries(b + (StringText(key) + (" = " + (text + after))), comments) ==
      Some((ReadEntries(rest, comments).value.0[key := p], ReadEntries(rest, comments).value.1))
  {
    EqualsBack(text + after, comments);
    StringBack(key, " = " + (text + after), comments);
    StringStarts(key, " = " + (text + after), comments);
    EntryLine(b, StringText(key), " = " + (text + after), text, after, key, p, rest, comments);
  }

  lemma EntryBack(key: string, p: Plist, tabs: nat, rest: string, comments: bool)
    requires Restorable(key, comments) && AllRestorable(p, comments) && ReadEntries(rest, comments).Some?
    requires ReadValue(Text(p, tabs + 1) + (";\n" + rest), comments) == Some((p, ";\n" + rest))
    ensures ReadEntries(("\t" + Tabs(tabs)) + StringText(key) + " = " + Text(p, tabs + 1) + ";\n" + rest, comments) ==
      Some((ReadEntries(rest, comments).value.0[key := p], ReadEntries(rest, comments).value.1))
  {
    var b, name, text, end := "\t" + Tabs(tabs), StringText(key), Text(p, tabs + 1), ";\n";
    EntryRegroup(b, name, " = ", text, end, rest);
    TabsAreBlank(tabs);
    CommaLine(rest, comments);
    NamedEntry(b, text, end + rest, key, p, rest, comments);
  }

  ghost function Restrict(p: Plist, keys: seq<string>): map<string, Plist>
    requires p.Dict? && forall k :: k in keys ==> k in p.entries
  {
    map k | k in keys :: p.entries[k]
  }

  lemma RestrictAll(p: Plist)
    requires p.Dict?
    ensures map[] + Restrict(p, Sorted(p.entries.Keys)) == p.entries
  {
  }

  lemma AppendLast(items: seq<Plist>, read: seq<Plist>)
    requires items != []
    ensures items[..|items| - 1] + ([items[|items| - 1]] + read) == items + read
  {
  }

  lemma RestrictLast(p: Plist, keys: seq<string>, read: map<string, Plist>)
    requires p.Dict? && keys != [] && forall k :: k in keys ==> k in p.entries
    ensures var k := keys[|keys| - 1];
      read[k := p.entries[k]] + Restrict(p, keys[..|keys| - 1]) == read + Restrict(p, keys)
  {
    assert keys == keys[..|keys| - 1] + [keys[|keys| - 1]];
  }

  lemma OpenArray(inner: string, items: seq<Plist>, rest: string, comments: bool)
    requires ReadItems(inner, comments) == Some((items, rest))
    ensures ReadValue(['('] + ("\n" + inner), comments) == Some((Arr(items), rest))
  {
    HeadTail('(', "\n" + inner);
    BlanksBeforeItems("\n", inner, comments);
  }

  lemma CloseBack(c: char, tabs: nat, rest: string, comments: bool)
    requires !Blank(c) && c != '/'
    ensures Expect(c, Tabs(tabs) + [c] + rest, comments) == Some(rest)
  {
    TabsAreBlank(tabs);
    Assoc(Tabs(tabs), [c], rest);
    SkipAll(Tabs(tabs), [c] + rest, comments);
    HeadTail(c, rest);
  }

  lemma OpenBack(open: char, inner: string, tabs: string, close: string, rest: string)
    ensures [open, '\n'] + inner + tabs + close + rest == [open] + ("\n" + (inner + (tabs + close + rest)))
  {
    assert [open, '\n'] == [open] + "\n";
    Regroup(inner, tabs, close, rest);
    EntryRegroup([open], "\n", inner, tabs, close, rest);
    Assoc(tabs, close, rest);
  }

  lemma {:induction false} ItemsBack(items: seq<Plist>, tabs: nat, rest: string, comments: bool)
    requires (forall q :: q in items ==> AllRestorable(q, comments)) && ReadItems(rest, comments).Some?
    ensures ReadItems(ItemsText(items, tabs) + rest, comments) ==
      Some((items + ReadItems(rest, comments).value.0, ReadItems(rest, comments).value.1))
    decreases items, 0
  {
    var read := ReadItems(rest, comments).value.0;
    if items == [] {
      assert ItemsText(items, tabs) + rest == rest && items + read == read;
    } else {
      var fewer, last := items[..|items| - 1], items[|items| - 1];
      var line := ItemText(last, tabs);
      ItemTextBack(last, tabs, rest, comments);
      ItemsBack(fewer, tabs, line + rest, comments);
      ItemsTextLast(items, tabs);
      Assoc(ItemsText(fewer, tabs), line, rest);
      AppendLast(items, read);
    }
  }

  lemma {:induction false} ArrayBack(items: seq<Plist>, tabs: nat, rest: string, comments: bool)
    requires forall q :: q in items ==> AllRestorable(q, comments)
    ensures ReadValue(Text(Arr(items), tabs) + rest, comments) == Some((Arr(items), rest))
    decreases items, 1
  {
    var end := Tabs(tabs) + ")" + rest;
    CloseBack(')', tabs, rest, comments);
    assert ReadItems(end, comments) == Some(([], rest));
    ItemsBack(items, tabs, end, comments);
    assert items + [] == items;
    OpenArray(ItemsText(items, tabs) + end, items, rest, comments);
    OpenBack('(', ItemsText(items, tabs), Tabs(tabs), ")", rest);
  }

  lemma ClosedDict(end: string, rest: string, comments: bool)
    requires Expect('}', end, comments) == Some(rest)
    ensures ReadEntries(end, comments) == Some((map[], rest))
  {
  }

  lemma OpenDict(inner: string, entries: map<string, Plist>, rest: string, comments: bool)
    requires ReadEntries(inner, comments) == Some((entries, rest))
    ensures ReadValue(['{'] + ("\n" + inner), comments) == Some((Dict(entries), rest))
  {
    HeadTail('{', "\n" + inner);
    BlanksBeforeEntries("\n", inner, comments);
  }

  lemma {:induction false} EntryTextBack(key: string, p: Plist, tabs: nat, rest: string, comments: bool)
    requires Restorable(key, comments) && AllRestorable(p, comments) && ReadEntries(rest, comments).Some?
    ensures ReadEntries(EntryText(key, p, tabs) + rest, comments) ==
      Some((ReadEntries(rest, comments).value.0[key := p], ReadEntries(rest, comments).value.1))
    decreases p, 3
  {
    CommaEnds(rest);
    ValueBack(p, tabs + 1, ";\n" + rest, comments);
    EntryBack(key, p, tabs, rest, comments);
  }

  lemma {:induction false} EntriesBack(p: Plist, keys: seq<string>, tabs: nat, rest: string, comments: bool)
    requires p.Dict? && AllRestorable(p, comments) && forall k :: k in keys ==> k in p.entries
    requires ReadEntries(rest, comments).Some?
    ensures ReadEntries(EntriesText(p, keys, tabs) + rest, comments) ==
      Some((ReadEntries(rest, comments).value.0 + Restrict(p, keys), ReadEntries(rest, comments).value.1))
    decreases p, 0, |keys|
  {
    var read := ReadEntries(rest, comments).value.0;
    if keys == [] {
      assert EntriesText(p, keys, tabs) + rest == rest && read + Restrict(p, keys) == read;
    } else {
      var fewer, k := keys[..|keys| - 1], keys[|keys| - 1];
      var line := EntryText(k, p.entries[k], tabs);
      EntryTextBack(k, p.entries[k], tabs, rest, comments);
      EntriesBack(p, fewer, tabs, line + rest, comments);
      EntriesTextLast(p, keys, tabs);
      Assoc(EntriesText(p, fewer, tabs), line, rest);
      RestrictLast(p, keys, read);
    }
  }

  lemma {:induction false} DictBack(p: Plist, tabs: nat, rest: string, comments: bool)
    requires p.Dict? && AllRestorable(p, comments)
    ensures ReadValue(Text(p, tabs) + rest, comments) == Some((p, rest))
    decreases p, 1
  {
    var keys := Sorted(p.entries.Keys);
    var end := Tabs(tabs) + "}" + rest;
    CloseBack('}', tabs, rest, comments);
    ClosedDict(end, rest, comments);
    EntriesBack(p, keys, tabs, end, comments);
    RestrictAll(p);
    OpenBack('{', EntriesText(p, keys, tabs), Tabs(tabs), "}", rest);
    OpenDict(EntriesText(p, keys, tabs) + end, p.entries, rest, comments);
  }

  /** A printed value is read back whatever follows it. */
  lemma {:induction false} ValueBack(p: Plist, tabs: nat, rest: string, comments: bool)
    requires AllRestorable(p, comments) && Ends(rest)
    ensures ReadValue(Text(p, tabs) + rest, comments) == Some((p, rest))
    decreases p, 2
  {
    match p
    case Str(s) =>
      StrBack(s, tabs, rest, comments);
    case Arr(items) =>
      ArrayBack(items, tabs, rest, comments);
    case Dict(entries) =>
      DictBack(p, tabs, rest, comments);
  }

  lemma {:induction false} ItemTextBack(p: Plist, tabs: nat, rest: string, comments: bool)
    requires AllRestorable(p, comments) && ReadItems(rest, comments).Some?
    ensures ReadItems(ItemText(p, tabs) + rest, comments) ==
      Some(([p] + ReadItems(rest, comments).value.0, ReadItems(rest, comments).value.1))
    decreases p, 3
  {
    CommaEnds(rest);
    ValueBack(p, tabs + 1, ",\n" + rest, comments);
    ItemBack(p, tabs, rest, comments);
  }

  /** No string in it holds a NUL, where C strings end. */
  ghost predicate NulFree(p: Plist) {
    AllRestorable(p, false)
  }

  /** Two different plists never print the same. */
  lemma PrintsApart(p: Plist, q: Plist)
    requires NulFree(p) && NulFree(q) && Written(p, 0) == Written(q, 0)
    ensures p == q
  {
    assert (HEADER + Text(p, 0) + "\n")[|HEADER|..] == Text(p, 0) + "\n";
    assert (HEADER + Text(q, 0) + "\n")[|HEADER|..] == Text(q, 0) + "\n";
    ValueBack(p, 0, "\n", false);
    ValueBack(q, 0, "\n", false);
  }

  // ------------------------------------------------------------- exactly which plists come back

  lemma {:induction false} LineBack(line: string, t: string)
    requires forall i :: 0 <= i < |line| ==> !LineEnd(line[i])
    ensures AfterLine(line + ("\n" + t)) == t
  {
    if line == [] {
      assert line + ("\n" + t) == "\n" + t && ("\n" + t)[1..] == t;
    } else {
      assert (line + ("\n" + t))[1..] == line[1..] + ("\n" + t);
      LineBack(line[1..], t);
    }
  }

  lemma CommentIsSkipped(line: string, t: string)
    requires OpensLine(line) && forall i :: 0 <= i < |line| ==> !LineEnd(line[i])
    ensures Skip(line + ("\n" + t), true) == Skip(t, true)
  {
    assert (line + ("\n" + t))[2..] == line[2..] + ("\n" + t);
    LineBack(line[2..], t);
  }

  lemma HeaderIsSkipped(t: string)
    ensures ReadValue(HEADER + t, true) == ReadValue(t, true)
  {
    var line := "// !$*UTF8*$!";
    assert HEADER + t == line + ("\n" + t);
    CommentIsSkipped(line, t);
  }

  lemma WrittenIs(p: Plist)
    ensures Written(p, 0) == HEADER + (Text(p, 0) + "\n")
  {
    Assoc(HEADER, Text(p, 0), "\n");
  }

  lemma ReadsBack(p: Plist)
    requires AllRestorable(p, true)
    ensures ReadPlist(Written(p, 0)) == Some(p)
  {
    WrittenIs(p);
    HeaderIsSkipped(Text(p, 0) + "\n");
    ValueBack(p, 0, "\n", true);
    assert Skip("\n", true) == [];
  }
}
