/**
 How printed property lists look (darwinxref/cfutils.c): which strings are quoted, how the lines are broken
 and indented, and in which order entries come.  Read off the text by a scanner that knows quotes and brackets
 and nothing of the printer.
 */
module PlistLayout {
  import opened CStrings
  import opened PlistText
  import opened PropertyList
  import opened TextOrder

  // ------------------------------------------------------------- quotes

  lemma {:induction false} EscapedLength(s: string)
    ensures |Escaped(s)| == |s| + multiset(s)['"'] + multiset(s)['\\']
  {
    if s == [] {
    } else {
      EscapedLength(s[..|s| - 1]);
      assert s == s[..|s| - 1] + [s[|s| - 1]];
    }
  }

  /** A string is printed as it is exactly if it is not empty and made of letters, digits, slashes, dots and
      underscores; any other is put in quotes, and grows by a backslash for each quote and backslash in it. */
  lemma QuotedExactly(s: string)
    requires NUL !in s
    ensures StringText(s) == s <==>
      s != "" && forall c :: c in s ==>
        'A' <= c <= 'Z' || 'a' <= c <= 'z' || '0' <= c <= '9' || c == '/' || c == '.' || c == '_'
    ensures StringText(s) != s ==>
      && StringText(s) == "\"" + Escaped(s) + "\""
      && |Escaped(s)| == |s| + multiset(s)['"'] + multiset(s)['\\']
  {
    EscapedLength(s);
    BareExactly(s);
    assert CString(s) == s;
    if !NeedsQuotes(s) {
      SafeIsUnescaped(s);
    } else {
      assert |StringText(s)| == |Escaped(s)| + 2;
    }
  }

  lemma BareExactly(s: string)
    ensures !NeedsQuotes(s) <==>
      s != "" && forall c :: c in s ==>
        'A' <= c <= 'Z' || 'a' <= c <= 'z' || '0' <= c <= '9' || c == '/' || c == '.' || c == '_'
  {
    assert forall i :: 0 <= i < |s| ==> s[i] in s;
  }

  // ------------------------------------------------------------- the scanner

  datatype Mode = Outside | Inside | AfterBackslash

  /** Where a reader is: in a quoted string or not, and below how many open brackets. */
  datatype Scan = Scan(mode: Mode, depth: int)

  function Next(x: Scan, c: char): Scan {
    match x.mode
    case AfterBackslash => x.(mode := Inside)
    case Inside => if c == '"' then x.(mode := Outside) else if c == '\\' then x.(mode := AfterBackslash) else x
    case Outside =>
      if c == '"' then x.(mode := Inside)
      else if c == '(' || c == '{' then x.(depth := x.depth + 1)
      else if c == ')' || c == '}' then x.(depth := x.depth - 1)
      else x
  }

  function ScanFrom(x: Scan, s: string): Scan {
    if s == [] then x else Next(ScanFrom(x, s[..|s| - 1]), s[|s| - 1])
  }

  lemma {:induction false} ScanAppend(x: Scan, a: string, b: string)
    ensures ScanFrom(x, a + b) == ScanFrom(ScanFrom(x, a), b)
  {
    if b == [] {
      assert a + b == a;
    } else {
      ScanAppend(x, a, b[..|b| - 1]);
      assert (a + b)[..|a + b| - 1] == a + b[..|b| - 1];
    }
  }

  function LeadingTabs(s: string): (n: nat)
    ensures n <= |s|
  {
    if s != [] && s[0] == '\t' then 1 + LeadingTabs(s[1..]) else 0
  }

  predicate Closes(c: char) {
    c == ')' || c == '}'
  }

  /** A line begins with a tab for each open bracket, not counting one that it closes; or the text is over. */
  predicate Indented(line: string, depth: int) {
    line == [] ||
    var n := LeadingTabs(line);
    n < |line| && n == if Closes(line[n]) then depth - 1 else depth
  }

  /** Opening brackets and separators end their line. */
  predicate EndsLine(c: char) {
    c == '(' || c == '{' || c == ',' || c == ';'
  }

  predicate FitsAt(x: Scan, c: char, rest: string) {
    x.mode == Outside ==>
      && (c == '\n' ==> Indented(rest, x.depth))
      && (EndsLine(c) ==> rest != [] && rest[0] == '\n')
  }

  /** Outside quotes, lines end where they should and are indented as they should, in a part of a text that
      is followed by `after`. */
  ghost predicate LaidOut(x: Scan, s: string, after: string) {
    forall i :: 0 <= i < |s| ==> FitsAt(ScanFrom(x, s[..i]), s[i], s[i + 1..] + after)
  }

  lemma LaidOutFirst(x: Scan, a: string, b: string, after: string, i: nat)
    requires LaidOut(x, a, b + after) && i < |a|
    ensures FitsAt(ScanFrom(x, (a + b)[..i]), (a + b)[i], (a + b)[i + 1..] + after)
  {
    assert (a + b)[..i] == a[..i] && (a + b)[i] == a[i];
    assert (a + b)[i + 1..] + after == a[i + 1..] + (b + after);
    assert FitsAt(ScanFrom(x, a[..i]), a[i], a[i + 1..] + (b + after));
  }

  lemma LaidOutSecond(x: Scan, a: string, b: string, after: string, i: nat)
    requires LaidOut(ScanFrom(x, a), b, after) && |a| <= i < |a| + |b|
    ensures FitsAt(ScanFrom(x, (a + b)[..i]), (a + b)[i], (a + b)[i + 1..] + after)
  {
    var j := i - |a|;
    assert (a + b)[..i] == a + b[..j] && (a + b)[i] == b[j] && (a + b)[i + 1..] == b[j + 1..];
    ScanAppend(x, a, b[..j]);
    assert FitsAt(ScanFrom(ScanFrom(x, a), b[..j]), b[j], b[j + 1..] + after);
  }

  lemma LaidOutBoth(x: Scan, a: string, b: string, after: string)
    requires LaidOut(x, a, b + after) && LaidOut(ScanFrom(x, a), b, after)
    ensures LaidOut(x, a + b, after) && ScanFrom(x, a + b) == ScanFrom(ScanFrom(x, a), b)
  {
    ScanAppend(x, a, b);
    forall i | 0 <= i < |a + b|
      ensures FitsAt(ScanFrom(x, (a + b)[..i]), (a + b)[i], (a + b)[i + 1..] + after)
    {
      if i < |a| {
        LaidOutFirst(x, a, b, after, i);
      } else {
        LaidOutSecond(x, a, b, after, i);
      }
    }
  }

  /** A part that leaves the reader where it was. */
  ghost predicate Neutral(x: Scan, s: string, after: string) {
    ScanFrom(x, s) == x && LaidOut(x, s, after)
  }

  lemma NeutralBoth(x: Scan, a: string, b: string, after: string)
    requires Neutral(x, a, b + after) && Neutral(x, b, after)
    ensures Neutral(x, a + b, after)
  {
    LaidOutBoth(x, a, b, after);
  }

  lemma NeutralThree(x: Scan, a: string, b: string, c: string, after: string)
    requires Neutral(x, a, b + (c + after)) && Neutral(x, b, c + after) && Neutral(x, c, after)
    ensures Neutral(x, a + b + c, after)
  {
    NeutralBoth(x, a, b, c + after);
    NeutralBoth(x, a + b, c, after);
  }

  lemma OneChar(x: Scan, c: char, after: string)
    ensures ScanFrom(x, [c]) == Next(x, c)
    ensures LaidOut(x, [c], after) <==> FitsAt(x, c, after)
  {
    assert [c][..0] == [] && [c][1..] + after == after;
    if FitsAt(x, c, after) {
      forall i | 0 <= i < |[c]|
        ensures FitsAt(ScanFrom(x, [c][..i]), [c][i], [c][i + 1..] + after)
      {
      }
    }
    if LaidOut(x, [c], after) {
      assert FitsAt(ScanFrom(x, [c][..0]), [c][0], [c][1..] + after);
    }
  }

  // ------------------------------------------------------------- strings

  /** Characters that mean nothing outside quotes. */
  predicate Inert(c: char) {
    c != '"' && c != '\n' && !Closes(c) && !EndsLine(c)
  }

  lemma {:induction false} InertText(x: Scan, s: string, after: string)
    requires x.mode == Outside && forall c :: c in s ==> Inert(c)
    ensures Neutral(x, s, after)
  {
    if s == [] {
    } else {
      var fewer, c := s[..|s| - 1], s[|s| - 1];
      assert c in s && s == fewer + [c];
      InertText(x, fewer, [c] + after);
      OneChar(x, c, after);
      NeutralBoth(x, fewer, [c], after);
    }
  }

  lemma QuotedChar(d: int, c: char, after: string)
    ensures ScanFrom(Scan(Inside, d), Code(c)) == Scan(Inside, d) && LaidOut(Scan(Inside, d), Code(c), after)
  {
    var x := Scan(Inside, d);
    OneChar(x, c, after);
    if c == '"' || c == '\\' {
      OneChar(x, '\\', [c] + after);
      OneChar(Scan(AfterBackslash, d), c, after);
      LaidOutBoth(x, "\\", [c], after);
      assert Code(c) == "\\" + [c];
    } else {
      assert Code(c) == [c];
    }
  }

  lemma {:induction false} QuotedChars(d: int, s: string, after: string)
    ensures ScanFrom(Scan(Inside, d), Escaped(s)) == Scan(Inside, d)
    ensures LaidOut(Scan(Inside, d), Escaped(s), after)
  {
    if s == [] {
    } else {
      var fewer, c := s[..|s| - 1], s[|s| - 1];
      QuotedChars(d, fewer, Code(c) + after);
      QuotedChar(d, c, after);
      LaidOutBoth(Scan(Inside, d), Escaped(fewer), Code(c), after);
      EscapedLast(s);
    }
  }

  lemma QuotedText(d: int, s: string, after: string)
    ensures ScanFrom(Scan(Outside, d), "\"" + Escaped(s) + "\"") == Scan(Outside, d)
    ensures LaidOut(Scan(Outside, d), "\"" + Escaped(s) + "\"", after)
  {
    var x := Scan(Outside, d);
    var quote := "\"";
    assert quote == ['"'];
    OneChar(x, '"', Escaped(s) + (quote + after));
    QuotedChars(d, s, quote + after);
    LaidOutBoth(x, quote, Escaped(s), quote + after);
    OneChar(Scan(Inside, d), '"', after);
    LaidOutBoth(x, quote + Escaped(s), quote, after);
  }

  lemma StringLaidOut(d: int, s: string, after: string)
    ensures Neutral(Scan(Outside, d), StringText(s), after)
  {
    var c := CString(s);
    if NeedsQuotes(c) {
      QuotedText(d, c, after);
    } else {
      SafeIsUnescaped(c);
      InertText(Scan(Outside, d), c, after);
    }
  }

  // ------------------------------------------------------------- indentation

  /** Something a line can begin with, behind its tabs, that closes nothing. */
  predicate Begins(s: string) {
    s != [] && s[0] != '\t' && !Closes(s[0])
  }

  lemma {:induction false} TabsCounted(n: nat, s: string)
    requires s == [] || s[0] != '\t'
    ensures LeadingTabs(Tabs(n) + s) == n
  {
    if n == 0 {
      assert Tabs(0) + s == s;
    } else {
      assert (Tabs(n) + s)[1..] == Tabs(n - 1) + s;
      TabsCounted(n - 1, s);
    }
  }

  lemma TabsIndent(n: nat, s: string)
    requires Begins(s)
    ensures Indented(Tabs(n) + s, n)
  {
    TabsCounted(n, s);
    assert (Tabs(n) + s)[n] == s[0];
  }

  lemma TabsClose(n: nat, c: char, after: string)
    requires Closes(c)
    ensures Indented(Tabs(n) + ([c] + after), n + 1)
  {
    TabsCounted(n, [c] + after);
    assert (Tabs(n) + ([c] + after))[n] == c;
  }

  lemma TextBegins(p: Plist, tabs: nat, after: string)
    ensures Begins(Text(p, tabs) + after)
  {
    match p
    case Str(s) =>
      var c := CString(s);
      if !NeedsQuotes(c) {
        SafeIsUnescaped(c);
        assert Safe(c[0]);
      }
    case Arr(_) =>
    case Dict(_) =>
  }

  lemma StringBegins(s: string, after: string)
    ensures Begins(StringText(s) + after)
  {
    TextBegins(Str(s), 0, after);
  }

  lemma TabsLaidOut(d: int, n: nat, after: string)
    ensures Neutral(Scan(Outside, d), Tabs(n), after)
  {
    InertText(Scan(Outside, d), Tabs(n), after);
  }

  /** A character that ends its line, and the line's end. */
  lemma LineEnds(x: Scan, c: char, y: Scan, after: string)
    requires x.mode == Outside && EndsLine(c) && y == Next(x, c) && Indented(after, y.depth)
    ensures ScanFrom(x, [c] + "\n") == y && LaidOut(x, [c] + "\n", after)
  {
    var end := ['\n'];
    HeadIs('\n', after);
    OneChar(x, c, end + after);
    OneChar(y, '\n', after);
    LaidOutBoth(x, [c], end, after);
  }

  lemma CommaEnds(d: int, after: string)
    requires Indented(after, d)
    ensures Neutral(Scan(Outside, d), ",\n", after)
  {
    LineEnds(Scan(Outside, d), ',', Scan(Outside, d), after);
    assert ",\n" == [','] + "\n";
  }

  lemma SemicolonEnds(d: int, after: string)
    requires Indented(after, d)
    ensures Neutral(Scan(Outside, d), ";\n", after)
  {
    LineEnds(Scan(Outside, d), ';', Scan(Outside, d), after);
    assert ";\n" == [';'] + "\n";
  }

  lemma HeadIs(c: char, after: string)
    ensures [c] + after != [] && ([c] + after)[0] == c
  {
  }

  // ------------------------------------------------------------- lists

  lemma ItemParts(p: Plist, tabs: nat, after: string)
    ensures ItemText(p, tabs) == Tabs(tabs + 1) + Text(p, tabs + 1) + ",\n"
    ensures ItemText(p, tabs) + after == Tabs(tabs + 1) + (Text(p, tabs + 1) + (",\n" + after))
  {
    assert Tabs(tabs) + "\t" == Tabs(tabs + 1);
    Assoc(Tabs(tabs + 1) + Text(p, tabs + 1), ",\n", after);
    Assoc(Tabs(tabs + 1), Text(p, tabs + 1), ",\n" + after);
  }

  lemma ItemLaidOut(p: Plist, tabs: nat, after: string)
    requires Indented(after, tabs + 1) && Neutral(Scan(Outside, tabs + 1), Text(p, tabs + 1), ",\n" + after)
    ensures Neutral(Scan(Outside, tabs + 1), ItemText(p, tabs), after)
  {
    var x := Scan(Outside, tabs + 1);
    ItemParts(p, tabs, after);
    TabsLaidOut(tabs + 1, tabs + 1, Text(p, tabs + 1) + (",\n" + after));
    CommaEnds(tabs + 1, after);
    NeutralThree(x, Tabs(tabs + 1), Text(p, tabs + 1), ",\n", after);
  }

  lemma ItemIsIndented(p: Plist, tabs: nat, after: string)
    ensures Indented(ItemText(p, tabs) + after, tabs + 1)
  {
    ItemParts(p, tabs, after);
    TextBegins(p, tabs + 1, ",\n" + after);
    TabsIndent(tabs + 1, Text(p, tabs + 1) + (",\n" + after));
  }

  lemma {:induction false} ItemsAreIndented(items: seq<Plist>, tabs: nat, after: string)
    requires Indented(after, tabs + 1)
    ensures Indented(ItemsText(items, tabs) + after, tabs + 1)
  {
    if items == [] {
      assert ItemsText(items, tabs) + after == after;
    } else {
      var fewer, last := items[..|items| - 1], items[|items| - 1];
      ItemIsIndented(last, tabs, after);
      ItemsAreIndented(fewer, tabs, ItemText(last, tabs) + after);
      ItemsTextLast(items, tabs);
      Assoc(ItemsText(fewer, tabs), ItemText(last, tabs), after);
    }
  }

  lemma EntryParts(key: string, p: Plist, tabs: nat, after: string)
    ensures EntryText(key, p, tabs) == Tabs(tabs + 1) + StringText(key) + " = " + Text(p, tabs + 1) + ";\n"
    ensures EntryText(key, p, tabs) + after ==
      Tabs(tabs + 1) + (StringText(key) + (" = " + (Text(p, tabs + 1) + (";\n" + after))))
  {
    assert "\t" + Tabs(tabs) == Tabs(tabs + 1);
    EntryRegroup(Tabs(tabs + 1), StringText(key), " = ", Text(p, tabs + 1), ";\n", after);
  }

  lemma EntryLaidOut(key: string, p: Plist, tabs: nat, after: string)
    requires Indented(after, tabs + 1) && Neutral(Scan(Outside, tabs + 1), Text(p, tabs + 1), ";\n" + after)
    ensures Neutral(Scan(Outside, tabs + 1), EntryText(key, p, tabs), after)
  {
    var text := Text(p, tabs + 1);
    var eq, end := " = ", ";\n";
    EntryParts(key, p, tabs, after);
    TabsLaidOut(tabs + 1, tabs + 1, StringText(key) + (eq + (text + (end + after))));
    StringLaidOut(tabs + 1, key, eq + (text + (end + after)));
    EqualsIsInert(tabs + 1, eq, text + (end + after));
    SemicolonEnds(tabs + 1, after);
    NeutralFive(Scan(Outside, tabs + 1), Tabs(tabs + 1), StringText(key), eq, text, end, after,
      EntryText(key, p, tabs));
  }

  lemma EqualsIsInert(d: int, eq: string, after: string)
    requires eq == " = "
    ensures Neutral(Scan(Outside, d), eq, after)
  {
    InertText(Scan(Outside, d), eq, after);
  }

  lemma NeutralFive(x: Scan, a: string, b: string, c: string, d: string, e: string, after: string, all: string)
    requires all == a + b + c + d + e
    requires Neutral(x, a, b + (c + (d + (e + after)))) && Neutral(x, b, c + (d + (e + after)))
    requires Neutral(x, c, d + (e + after)) && Neutral(x, d, e + after) && Neutral(x, e, after)
    ensures Neutral(x, all, after)
  {
    NeutralThree(x, a, b, c, d + (e + after));
    NeutralThree(x, a + b + c, d, e, after);
  }

  lemma EntryIsIndented(key: string, p: Plist, tabs: nat, after: string)
    ensures Indented(EntryText(key, p, tabs) + after, tabs + 1)
  {
    var more := " = " + (Text(p, tabs + 1) + (";\n" + after));
    EntryParts(key, p, tabs, after);
    StringBegins(key, more);
    TabsIndent(tabs + 1, StringText(key) + more);
  }

  lemma {:induction false} EntriesAreIndented(p: Plist, keys: seq<string>, tabs: nat, after: string)
    requires p.Dict? && (forall k :: k in keys ==> k in p.entries) && Indented(after, tabs + 1)
    ensures Indented(EntriesText(p, keys, tabs) + after, tabs + 1)
    decreases |keys|
  {
    if keys == [] {
      assert EntriesText(p, keys, tabs) + after == after;
    } else {
      var fewer, k := keys[..|keys| - 1], keys[|keys| - 1];
      EntryIsIndented(k, p.entries[k], tabs, after);
      EntriesAreIndented(p, fewer, tabs, EntryText(k, p.entries[k], tabs) + after);
      EntriesTextLast(p, keys, tabs);
      Assoc(EntriesText(p, fewer, tabs), EntryText(k, p.entries[k], tabs), after);
    }
  }

  // ------------------------------------------------------------- the whole text

  /** An opening bracket, laid out lines, and the closing bracket below the opening line. */
  lemma BracketsLaidOut(open: char, body: string, close: char, tabs: nat, after: string)
    requires (open == '(' || open == '{') && Closes(close)
    requires Indented(body + (Tabs(tabs) + ([close] + after)), tabs + 1)
    requires Neutral(Scan(Outside, tabs + 1), body, Tabs(tabs) + ([close] + after))
    ensures Neutral(Scan(Outside, tabs), [open] + "\n" + (body + Tabs(tabs)) + [close], after)
  {
    var x, y := Scan(Outside, tabs), Scan(Outside, tabs + 1);
    Assoc(body, Tabs(tabs), [close] + after);
    LineEnds(x, open, y, body + Tabs(tabs) + ([close] + after));
    BodyLaidOut(tabs, body, [close] + after);
    ClosingBracket(tabs, close, after);
    Enclosed(x, [open] + "\n", y, body + Tabs(tabs), [close], after);
  }

  lemma BodyLaidOut(tabs: nat, body: string, after: string)
    requires Neutral(Scan(Outside, tabs + 1), body, Tabs(tabs) + after)
    ensures Neutral(Scan(Outside, tabs + 1), body + Tabs(tabs), after)
  {
    TabsLaidOut(tabs + 1, tabs, after);
    NeutralBoth(Scan(Outside, tabs + 1), body, Tabs(tabs), after);
  }

  lemma ClosingBracket(tabs: nat, close: char, after: string)
    requires Closes(close)
    ensures ScanFrom(Scan(Outside, tabs + 1), [close]) == Scan(Outside, tabs)
    ensures LaidOut(Scan(Outside, tabs + 1), [close], after)
  {
    OneChar(Scan(Outside, tabs + 1), close, after);
  }

  lemma Enclosed(x: Scan, open: string, y: Scan, body: string, close: string, after: string)
    requires ScanFrom(x, open) == y && LaidOut(x, open, body + (close + after))
    requires Neutral(y, body, close + after) && ScanFrom(y, close) == x && LaidOut(y, close, after)
    ensures Neutral(x, open + body + close, after)
  {
    LaidOutBoth(x, open, body, close + after);
    LaidOutBoth(x, open + body, close, after);
  }

  lemma {:induction false} TextLaidOut(p: Plist, tabs: nat, after: string)
    ensures Neutral(Scan(Outside, tabs), Text(p, tabs), after)
    decreases p, 1
  {
    match p {
      case Str(s) =>
        StringLaidOut(tabs, s, after);
      case Arr(items) =>
        var end := Tabs(tabs) + ([')'] + after);
        TabsClose(tabs, ')', after);
        ItemsAreIndented(items, tabs, end);
        ItemsLaidOut(items, tabs, end);
        BracketsLaidOut('(', ItemsText(items, tabs), ')', tabs, after);
        ListParts(items, tabs);
      case Dict(entries) =>
        var end := Tabs(tabs) + (['}'] + after);
        TabsClose(tabs, '}', after);
        EntriesAreIndented(p, Sorted(entries.Keys), tabs, end);
        EntriesLaidOut(p, Sorted(entries.Keys), tabs, end);
        BracketsLaidOut('{', EntriesText(p, Sorted(entries.Keys), tabs), '}', tabs, after);
        DictParts(p, tabs);
    }
  }

  lemma ListParts(items: seq<Plist>, tabs: nat)
    ensures Text(Arr(items), tabs) == ['('] + "\n" + (ItemsText(items, tabs) + Tabs(tabs)) + [')']
  {
    assert "(\n" == ['('] + "\n" && ")" == [')'];
    Assoc("(\n", ItemsText(items, tabs), Tabs(tabs));
  }

  lemma DictParts(p: Plist, tabs: nat)
    requires p.Dict?
    ensures Text(p, tabs) == ['{'] + "\n" + (EntriesText(p, Sorted(p.entries.Keys), tabs) + Tabs(tabs)) + ['}']
  {
    assert "{\n" == ['{'] + "\n" && "}" == ['}'];
    Assoc("{\n", EntriesText(p, Sorted(p.entries.Keys), tabs), Tabs(tabs));
  }

  lemma {:induction false} ItemsLaidOut(items: seq<Plist>, tabs: nat, after: string)
    requires Indented(after, tabs + 1)
    ensures Neutral(Scan(Outside, tabs + 1), ItemsText(items, tabs), after)
    decreases items, 0
  {
    if items == [] {
    } else {
      var fewer, last := items[..|items| - 1], items[|items| - 1];
      ItemIsIndented(last, tabs, after);
      ItemsLaidOut(fewer, tabs, ItemText(last, tabs) + after);
      TextLaidOut(last, tabs + 1, ",\n" + after);
      ItemLaidOut(last, tabs, after);
      NeutralBoth(Scan(Outside, tabs + 1), ItemsText(fewer, tabs), ItemText(last, tabs), after);
      ItemsTextLast(items, tabs);
    }
  }

  lemma {:induction false} EntriesLaidOut(p: Plist, keys: seq<string>, tabs: nat, after: string)
    requires p.Dict? && (forall k :: k in keys ==> k in p.entries) && Indented(after, tabs + 1)
    ensures Neutral(Scan(Outside, tabs + 1), EntriesText(p, keys, tabs), after)
    decreases p, 0, |keys|
  {
    if keys == [] {
    } else {
      var fewer, k := keys[..|keys| - 1], keys[|keys| - 1];
      EntryIsIndented(k, p.entries[k], tabs, after);
      EntriesLaidOut(p, fewer, tabs, EntryText(k, p.entries[k], tabs) + after);
      TextLaidOut(p.entries[k], tabs + 1, ";\n" + after);
      EntryLaidOut(k, p.entries[k], tabs, after);
      NeutralBoth(Scan(Outside, tabs + 1), EntriesText(p, fewer, tabs), EntryText(k, p.entries[k], tabs), after);
      EntriesTextLast(p, keys, tabs);
    }
  }

  lemma TitleLaidOut(title: string, text: string, end: string)
    requires (forall c :: c in title ==> Inert(c)) && Begins(text + (end + ""))
    ensures Neutral(Scan(Outside, 0), title + "\n", text + (end + ""))
  {
    var x := Scan(Outside, 0);
    InertText(x, title, "\n" + (text + (end + "")));
    TabsIndent(0, text + (end + ""));
    assert Tabs(0) + (text + (end + "")) == text + (end + "");
    assert "\n" == ['\n'];
    OneChar(x, '\n', text + (end + ""));
    NeutralBoth(x, title, "\n", text + (end + ""));
  }

  /** In all that is printed for a plist, header included, opening brackets, commas and semicolons outside
      quotes end their lines, each line is indented by the brackets open there, and all brackets and quotes
      are closed in the end. */
  lemma WrittenIsLaidOut(p: Plist)
    ensures LaidOut(Scan(Outside, 0), Written(p, 0), "")
    ensures ScanFrom(Scan(Outside, 0), Written(p, 0)) == Scan(Outside, 0)
  {
    var title := TitleOf(p);
    var end := "\n";
    TextBegins(p, 0, end + "");
    TextLaidOut(p, 0, end + "");
    Titled(title, Text(p, 0), end);
  }

  /** The header is a comment line. */
  lemma TitleOf(p: Plist) returns (title: string)
    ensures title == "// !$*UTF8*$!" && Written(p, 0) == title + "\n" + Text(p, 0) + "\n"
    ensures forall c :: c in title ==> Inert(c)
  {
    title := "// !$*UTF8*$!";
    assert HEADER == title + "\n";
  }

  lemma Titled(title: string, text: string, end: string)
    requires end == "\n" && (forall c :: c in title ==> Inert(c)) && Begins(text + (end + ""))
    requires Neutral(Scan(Outside, 0), text, end + "")
    ensures Neutral(Scan(Outside, 0), title + "\n" + text + end, "")
  {
    TitleLaidOut(title, text, end);
    OneChar(Scan(Outside, 0), '\n', "");
    assert end == ['\n'];
    NeutralThree(Scan(Outside, 0), title + "\n", text, end, "");
  }

  // ------------------------------------------------------------- the order of entries

  /** The entry of a key, and what is before and behind it. */
  lemma {:induction false} EntryInside(p: Plist, keys: seq<string>, k: nat, tabs: nat) returns (b: string)
    requires p.Dict? && (forall x :: x in keys ==> x in p.entries) && k < |keys|
    ensures EntriesText(p, keys, tabs) ==
      EntriesText(p, keys[..k], tabs) + (EntryText(keys[k], p.entries[keys[k]], tabs) + b)
    decreases |keys|
  {
    var fewer, last := keys[..|keys| - 1], keys[|keys| - 1];
    var entry := EntryText(last, p.entries[last], tabs);
    EntriesTextLast(p, keys, tabs);
    if k == |keys| - 1 {
      b := "";
      NothingBehind(EntriesText(p, fewer, tabs), entry);
    } else {
      var so := EntryInside(p, fewer, k, tabs);
      assert fewer[..k] == keys[..k] && fewer[k] == keys[k];
      b := so + entry;
      Regroup2(EntriesText(p, keys[..k], tabs), EntryText(keys[k], p.entries[keys[k]], tabs), so, entry);
    }
  }

  lemma NothingBehind(a: string, b: string)
    ensures a + (b + "") == a + b
  {
    assert b + "" == b;
  }

  lemma Regroup2(a: string, b: string, c: string, d: string)
    ensures a + (b + c) + d == a + (b + (c + d))
  {
    Assoc(a, b + c, d);
    Assoc(b, c, d);
  }

  /** One text, and somewhere behind it another. */
  ghost predicate Follows(s: string, u: string, v: string) {
    exists a, b, c :: s == a + (u + b) + (v + c)
  }

  lemma EntriesFollow(p: Plist, keys: seq<string>, i: nat, j: nat, tabs: nat)
    requires p.Dict? && (forall x :: x in keys ==> x in p.entries) && i < j < |keys|
    ensures Follows(EntriesText(p, keys, tabs), EntryText(keys[i], p.entries[keys[i]], tabs),
      EntryText(keys[j], p.entries[keys[j]], tabs))
  {
    var c := EntryInside(p, keys, j, tabs);
    assert keys[..j][..i] == keys[..i] && keys[..j][i] == keys[i];
    var b := EntryInside(p, keys[..j], i, tabs);
  }

  lemma StillFollows(open: string, s: string, end: string, u: string, v: string)
    requires Follows(s, u, v)
    ensures Follows(open + s + end, u, v)
  {
    var a, b, c :| s == a + (u + b) + (v + c);
    Regroup2(open, a + (u + b), v + c, end);
    assert open + (a + (u + b) + (v + c)) + end == open + a + (u + b) + (v + (c + end));
  }

  /** The entry with the smaller key comes first. */
  lemma EntriesAscend(p: Plist, small: string, large: string, tabs: nat)
    requires p.Dict? && small in p.entries && large in p.entries && Less(small, large)
    ensures Follows(Text(p, tabs), EntryText(small, p.entries[small], tabs),
      EntryText(large, p.entries[large], tabs))
  {
    var keys := Sorted(p.entries.Keys);
    assert small in keys && large in keys;
    var i :| 0 <= i < |keys| && keys[i] == small;
    var j :| 0 <= j < |keys| && keys[j] == large;
    if j < i {
      LeqAntisymmetric(small, large);
    }
    EntriesFollow(p, keys, i, j, tabs);
    StillFollows("{\n", EntriesText(p, keys, tabs), Tabs(tabs) + "}", EntryText(small, p.entries[small], tabs),
      EntryText(large, p.entries[large], tabs));
    Assoc("{\n" + EntriesText(p, keys, tabs), Tabs(tabs), "}");
  }
}
