/**
 Exactly which property lists come back from their printed form: the other direction.  Text
 that a comment swallows can make the reader lose its place, and then it may read strings that
 were never printed as strings; but it never reads one that looks like a comment.
 */
module PlistExact {
  import opened CStrings
  import opened PropertyList
  import opened PlistText
  import opened PlistReader
  import opened TextOrder
  import opened Wrappers

  // ------------------------------------------------------------- quotes in printed text

  /** A quote that no backslash precedes. */
  predicate RawQuote(t: string, i: int) {
    0 <= i < |t| && t[i] == '"' && (i == 0 || t[i - 1] != '\\')
  }

  predicate Separator(c: char) {
    c == ',' || c == ';' || c == ' ' || c == '\n'
  }

  /** What follows a quote: if the quote closes a string, punctuation, and if it opens one, a
      string that needed its quotes. */
  predicate CalmAfter(t: string) {
    || t == []
    || Separator(t[0])
    || (ReadQuoted(t).Some? && NeedsQuotes(ReadQuoted(t).value.0))
  }

  ghost predicate Calm(t: string) {
    forall i :: RawQuote(t, i) ==> CalmAfter(t[i + 1..])
  }

  predicate Plain(t: string) {
    forall i :: 0 <= i < |t| ==> t[i] != '"'
  }

  predicate Quiet(t: string) {
    t == [] || t[|t| - 1] != '"'
  }

  lemma {:induction false} QuotedExtends(t: string, more: string)
    requires ReadQuoted(t).Some?
    ensures ReadQuoted(t + more) == Some((ReadQuoted(t).value.0, ReadQuoted(t).value.1 + more))
    decreases |t|
  {
    assert (t + more)[0] == t[0] && (t + more)[1..] == t[1..] + more;
    if t[0] == '"' {
    } else if t[0] == '\\' {
      assert (t + more)[1] == t[1] && (t + more)[2..] == t[2..] + more;
      QuotedExtends(t[2..], more);
    } else {
      QuotedExtends(t[1..], more);
    }
  }

  lemma CalmAfterMore(t: string, more: string)
    requires CalmAfter(t) && (t == [] ==> more == [] || Separator(more[0]))
    ensures CalmAfter(t + more)
  {
    if t == [] {
      assert t + more == more;
    } else if Separator(t[0]) {
      assert (t + more)[0] == t[0];
    } else {
      QuotedExtends(t, more);
    }
  }

  lemma CalmInFirst(a: string, b: string, i: nat)
    requires Calm(a) && (Quiet(a) || b == [] || Separator(b[0]))
    requires i < |a| && RawQuote(a + b, i)
    ensures CalmAfter((a + b)[i + 1..])
  {
    assert (a + b)[i] == a[i] && (i > 0 ==> (a + b)[i - 1] == a[i - 1]);
    assert RawQuote(a, i);
    assert (a + b)[i + 1..] == a[i + 1..] + b;
    CalmAfterMore(a[i + 1..], b);
  }

  lemma CalmInSecond(a: string, b: string, i: nat)
    requires Calm(b) && |a| <= i && RawQuote(a + b, i)
    ensures CalmAfter((a + b)[i + 1..])
  {
    var k := i - |a|;
    assert (a + b)[i] == b[k] && (k > 0 ==> (a + b)[i - 1] == b[k - 1]);
    assert RawQuote(b, k);
    assert (a + b)[i + 1..] == b[k + 1..];
  }

  lemma CalmConcat(a: string, b: string)
    requires Calm(a) && Calm(b)
    requires Quiet(a) || b == [] || Separator(b[0])
    ensures Calm(a + b)
  {
    forall i | RawQuote(a + b, i)
      ensures CalmAfter((a + b)[i + 1..])
    {
      if i < |a| {
        CalmInFirst(a, b, i);
      } else {
        CalmInSecond(a, b, i);
      }
    }
  }

  lemma QuietConcat(a: string, b: string)
    requires b != [] && Quiet(b)
    ensures Quiet(a + b)
  {
    assert (a + b)[|a + b| - 1] == b[|b| - 1];
  }

  /** Text between two pieces without quotes. */
  lemma CalmBetween(a: string, t: string, b: string)
    requires Plain(a) && Calm(t) && Plain(b) && b != []
    requires Quiet(t) || Separator(b[0])
    ensures Calm(a + t + b) && Quiet(a + t + b)
  {
    CalmConcat(a, t);
    if !Separator(b[0]) && t != [] {
      QuietConcat(a, t);
    }
    CalmConcat(a + t, b);
    QuietConcat(a + t, b);
  }

  lemma LastQuoteIsEscaped(before: string, c: char)
    requires forall i :: 0 <= i < |before| && before[i] == '"' ==> i > 0 && before[i - 1] == '\\'
    ensures var t := before + Code(c);
      forall i :: 0 <= i < |t| && t[i] == '"' ==> i > 0 && t[i - 1] == '\\'
  {
  }

  lemma {:induction false} QuotesAreEscaped(s: string)
    ensures forall i :: 0 <= i < |Escaped(s)| && Escaped(s)[i] == '"' ==> i > 0 && Escaped(s)[i - 1] == '\\'
  {
    if s == [] {
    } else {
      QuotesAreEscaped(s[..|s| - 1]);
      EscapedLast(s);
      LastQuoteIsEscaped(Escaped(s[..|s| - 1]), s[|s| - 1]);
    }
  }

  lemma InnerQuoteIsEscaped(inner: string, i: nat)
    requires forall j :: 0 <= j < |inner| && inner[j] == '"' ==> j > 0 && inner[j - 1] == '\\'
    requires 0 < i <= |inner| && (['"'] + inner + ['"'])[i] == '"'
    ensures (['"'] + inner + ['"'])[i - 1] == '\\'
  {
    assert (['"'] + inner + ['"'])[i] == inner[i - 1];
  }

  lemma OnlyOuterQuotesAreRaw(s: string, t: string)
    requires t == ['"'] + Escaped(s) + ['"']
    ensures forall i :: RawQuote(t, i) ==> i == 0 || i == |t| - 1
  {
    QuotesAreEscaped(s);
    forall i | 0 < i < |t| - 1 && t[i] == '"'
      ensures t[i - 1] == '\\'
    {
      InnerQuoteIsEscaped(Escaped(s), i);
    }
  }

  lemma OpeningIsCalm(s: string)
    requires NeedsQuotes(s)
    ensures CalmAfter(Escaped(s) + ['"'])
  {
    QuotedBack(s, ['"']);
    assert s + [] == s;
  }

  lemma QuotedIsCalm(s: string, t: string)
    requires NeedsQuotes(s) && t == ['"'] + Escaped(s) + ['"']
    ensures Calm(t)
  {
    OnlyOuterQuotesAreRaw(s, t);
    OpeningIsCalm(s);
    assert t[1..] == Escaped(s) + ['"'];
    assert t[|t|..] == [];
  }

  lemma StringIsCalm(s: string)
    ensures Calm(StringText(s))
  {
    var c := CString(s);
    if NeedsQuotes(c) {
      QuotedIsCalm(c, StringText(s));
    } else {
      SafeIsUnescaped(c);
      assert Plain(c);
    }
  }

  lemma ClosedIsCalm(a: string, t: string, b: string)
    requires Calm(a) && Quiet(a) && Calm(t) && Plain(b) && b != [] && Separator(b[0])
    ensures Calm(a + t + b) && Quiet(a + t + b)
  {
    CalmConcat(a, t);
    CalmConcat(a + t, b);
    QuietConcat(a + t, b);
  }

  lemma EntryIsCalm(key: string, p: Plist, tabs: nat)
    requires Calm(Text(p, tabs + 1))
    ensures EntryText(key, p, tabs) != []
    ensures Calm(EntryText(key, p, tabs)) && Quiet(EntryText(key, p, tabs))
  {
    StringIsCalm(key);
    var name := "\t" + Tabs(tabs) + StringText(key) + " = ";
    CalmBetween("\t" + Tabs(tabs), StringText(key), " = ");
    ClosedIsCalm(name, Text(p, tabs + 1), ";\n");
  }

  lemma {:induction false} EntriesAreCalm(p: Plist, keys: seq<string>, tabs: nat)
    requires p.Dict? && forall k :: k in keys ==> k in p.entries
    ensures Calm(EntriesText(p, keys, tabs)) && Quiet(EntriesText(p, keys, tabs))
    decreases p, 0, |keys|
  {
    if keys == [] {
    } else {
      var fewer, k := keys[..|keys| - 1], keys[|keys| - 1];
      EntriesAreCalm(p, fewer, tabs);
      TextIsCalm(p.entries[k], tabs + 1);
      EntryIsCalm(k, p.entries[k], tabs);
      EntriesTextLast(p, keys, tabs);
      CalmConcat(EntriesText(p, fewer, tabs), EntryText(k, p.entries[k], tabs));
      QuietConcat(EntriesText(p, fewer, tabs), EntryText(k, p.entries[k], tabs));
    }
  }

  lemma {:induction false} TextIsCalm(p: Plist, tabs: nat)
    ensures Calm(Text(p, tabs))
    decreases p, 2
  {
    match p
    case Str(s) =>
      StringIsCalm(s);
    case Arr(items) =>
      ItemsAreCalm(items, tabs);
      Assoc("(\n" + ItemsText(items, tabs), Tabs(tabs), ")");
      CalmBetween("(\n", ItemsText(items, tabs), Tabs(tabs) + ")");
    case Dict(entries) =>
      var keys := Sorted(entries.Keys);
      EntriesAreCalm(p, keys, tabs);
      Assoc("{\n" + EntriesText(p, keys, tabs), Tabs(tabs), "}");
      CalmBetween("{\n", EntriesText(p, keys, tabs), Tabs(tabs) + "}");
  }

  lemma {:induction false} ItemsAreCalm(items: seq<Plist>, tabs: nat)
    ensures Calm(ItemsText(items, tabs)) && Quiet(ItemsText(items, tabs))
    decreases items, 0
  {
    if items == [] {
    } else {
      var fewer, last := items[..|items| - 1], items[|items| - 1];
      ItemsAreCalm(fewer, tabs);
      TextIsCalm(last, tabs + 1);
      CalmBetween(Tabs(tabs) + "\t", Text(last, tabs + 1), ",\n");
      ItemsTextLast(items, tabs);
      CalmConcat(ItemsText(fewer, tabs), ItemText(last, tabs));
      QuietConcat(ItemsText(fewer, tabs), ItemText(last, tabs));
    }
  }

  lemma WrittenIsCalm(p: Plist)
    ensures Calm(Written(p, 0))
  {
    TextIsCalm(p, 0);
    assert Plain(HEADER);
    CalmBetween(HEADER, Text(p, 0), "\n");
  }

  // ------------------------------------------------------------- what is read from it

  /** Text as the printer makes it, or the rest of it. */
  ghost predicate Printed(t: string) {
    NUL !in t && Calm(t)
  }

  lemma SuffixIsPrinted(t: string, k: nat)
    requires Printed(t) && k <= |t| && (k == 0 || k == |t| || t[k - 1] != '\\')
    ensures Printed(t[k..])
  {
    var u := t[k..];
    forall i | RawQuote(u, i)
      ensures CalmAfter(u[i + 1..])
    {
      assert u[i] == t[k + i] && (i > 0 ==> u[i - 1] == t[k + i - 1]);
      assert RawQuote(t, k + i);
      assert u[i + 1..] == t[k + i + 1..];
    }
  }

  lemma {:induction false} LineIsSuffix(t: string) returns (k: nat)
    ensures k <= |t| && AfterLine(t) == t[k..]
    ensures k == |t| || (k > 0 && LineEnd(t[k - 1]))
    decreases |t|
  {
    if t == [] {
      k := 0;
    } else if LineEnd(t[0]) {
      k := 1;
    } else {
      k := LineIsSuffix(t[1..]);
      assert t[1..][k..] == t[k + 1..];
      k := k + 1;
    }
  }

  lemma {:induction false} BlockIsSuffix(t: string) returns (k: nat)
    ensures k <= |t| && AfterBlock(t) == t[k..]
    ensures k == |t| || (k > 0 && t[k - 1] == '/')
    decreases |t|
  {
    if t == [] {
      k := 0;
    } else if |t| >= 2 && t[0] == '*' && t[1] == '/' {
      k := 2;
    } else {
      k := BlockIsSuffix(t[1..]);
      assert t[1..][k..] == t[k + 1..];
      k := k + 1;
    }
  }

  lemma CommentIsPrinted(t: string)
    requires Printed(t) && OpensComment(t)
    ensures OpensLine(t) ==> Printed(AfterLine(t[2..]))
    ensures OpensBlock(t) ==> Printed(AfterBlock(t[2..]))
  {
    if OpensLine(t) {
      var k := LineIsSuffix(t[2..]);
      assert t[2..][k..] == t[k + 2..];
      SuffixIsPrinted(t, k + 2);
    } else {
      var k := BlockIsSuffix(t[2..]);
      assert t[2..][k..] == t[k + 2..];
      SuffixIsPrinted(t, k + 2);
    }
  }

  lemma {:induction false} SkipIsPrinted(t: string)
    requires Printed(t)
    ensures Printed(Skip(t, true))
    decreases |t|
  {
    if t == [] {
    } else if Blank(t[0]) {
      SuffixIsPrinted(t, 1);
      SkipIsPrinted(t[1..]);
    } else if OpensComment(t) {
      CommentIsPrinted(t);
      SkipIsPrinted(if OpensLine(t) then AfterLine(t[2..]) else AfterBlock(t[2..]));
    }
  }

  lemma ExpectIsPrinted(c: char, t: string)
    requires Printed(t) && c != '\\'
    ensures Expect(c, t, true).Some? ==> Printed(Expect(c, t, true).value)
  {
    SkipIsPrinted(t);
    if Expect(c, t, true).Some? {
      SuffixIsPrinted(Skip(t, true), 1);
    }
  }

  /** Where a quoted string ends, and that it holds no NUL of its own. */
  lemma {:induction false} QuotedIsPrefix(t: string) returns (k: nat)
    requires NUL !in t && ReadQuoted(t).Some?
    ensures 0 < k <= |t| && t[k - 1] == '"' && ReadQuoted(t).value.1 == t[k..]
    ensures NUL !in ReadQuoted(t).value.0
    ensures t[0] != '"' && t[0] != '\\' ==> ReadQuoted(t).value.0 != [] && ReadQuoted(t).value.0[0] == t[0]
    decreases |t|
  {
    if t[0] == '"' {
      k := 1;
    } else if t[0] == '\\' {
      k := QuotedIsPrefix(t[2..]);
      assert t[2..][k..] == t[k + 2..];
      k := k + 2;
    } else {
      k := QuotedIsPrefix(t[1..]);
      assert t[1..][k..] == t[k + 1..];
      k := k + 1;
    }
  }

  lemma QuotedIsRestorable(t: string)
    requires Printed(t) && t != [] && t[0] == '"' && ReadString(t).Some?
    ensures Restorable(ReadString(t).value.0, true) && Printed(ReadString(t).value.1)
  {
    assert RawQuote(t, 0);
    var k := QuotedIsPrefix(t[1..]);
    var s := ReadString(t).value.0;
    if Separator(t[1]) {
      assert !Safe(s[0]);
    }
    assert t[1..][k..] == t[k + 1..];
    SuffixIsPrinted(t, k + 1);
  }

  lemma {:induction false} BareLengthMeans(t: string)
    ensures forall i :: 0 <= i < BareLength(t) ==> Bare(t[i])
  {
    if t == [] || !Bare(t[0]) {
    } else {
      BareLengthMeans(t[1..]);
      assert forall i :: 1 <= i < BareLength(t) ==> t[i] == t[1..][i - 1];
    }
  }

  lemma BareIsRestorable(t: string)
    requires Printed(t) && Visible(t, true) && t[0] != '"' && ReadString(t).Some?
    ensures Restorable(ReadString(t).value.0, true) && Printed(ReadString(t).value.1)
  {
    var n := BareLength(t);
    BareLengthMeans(t);
    SuffixIsPrinted(t, n);
    assert OpensLine(t[..n]) ==> OpensLine(t);
  }

  lemma StringIsRestorable(t: string)
    requires Printed(t) && Visible(t, true) && ReadString(t).Some?
    ensures Restorable(ReadString(t).value.0, true) && Printed(ReadString(t).value.1)
  {
    if t[0] == '"' {
      QuotedIsRestorable(t);
    } else {
      BareIsRestorable(t);
    }
  }

  lemma {:induction false} EntriesAreRestorable(t: string)
    requires Printed(t) && ReadEntries(t, true).Some?
    ensures AllRestorable(Dict(ReadEntries(t, true).value.0), true)
    ensures Printed(ReadEntries(t, true).value.1)
    decreases |t|, 2
  {
    ExpectIsPrinted('}', t);
    if Expect('}', t, true).Some? {
    } else {
      SkipIsPrinted(t);
      StringIsRestorable(Skip(t, true));
      var (key, rest) := ReadString(Skip(t, true)).value;
      ExpectIsPrinted('=', rest);
      ValueIsRestorable(Expect('=', rest, true).value);
      var (value, after) := ReadValue(Expect('=', rest, true).value, true).value;
      ExpectIsPrinted(';', after);
      EntriesAreRestorable(Expect(';', after, true).value);
    }
  }

  /** Whatever is read from printed text, in or out of step with the printer, can be restored. */
  lemma {:induction false} ValueIsRestorable(t: string)
    requires Printed(t) && ReadValue(t, true).Some?
    ensures AllRestorable(ReadValue(t, true).value.0, true) && Printed(ReadValue(t, true).value.1)
    decreases |t|, 1
  {
    SkipIsPrinted(t);
    var u := Skip(t, true);
    if u[0] == '(' {
      SuffixIsPrinted(u, 1);
      ItemsAreRestorable(u[1..]);
    } else if u[0] == '{' {
      SuffixIsPrinted(u, 1);
      EntriesAreRestorable(u[1..]);
    } else {
      StringIsRestorable(u);
    }
  }

  lemma {:induction false} ItemsAreRestorable(t: string)
    requires Printed(t) && ReadItems(t, true).Some?
    ensures forall q :: q in ReadItems(t, true).value.0 ==> AllRestorable(q, true)
    ensures Printed(ReadItems(t, true).value.1)
    decreases |t|, 2
  {
    ExpectIsPrinted(')', t);
    if Expect(')', t, true).Some? {
    } else {
      ValueIsRestorable(t);
      var (item, rest) := ReadValue(t, true).value;
      ExpectIsPrinted(',', rest);
      ItemsAreRestorable(Expect(',', rest, true).value);
    }
  }

  /** A plist comes back from its printed text exactly when no string in it, key or value, holds
      a NUL or starts with two slashes and is printed without quotes. */
  lemma ReadsBackExactly(p: Plist)
    ensures ReadPlist(Written(p, 0)) == Some(p) <==> AllRestorable(p, true)
  {
    if AllRestorable(p, true) {
      ReadsBack(p);
    }
    if ReadPlist(Written(p, 0)) == Some(p) {
      WrittenIsCalm(p);
      TextHasNoNul(p, 0);
      assert NUL !in HEADER;
      ValueIsRestorable(Written(p, 0));
    }
  }

  /** A string that looks like a comment is lost, and nothing is read. */
  lemma CommentIsLost(s: string)
    requires NUL !in s && LooksLikeComment(s)
    ensures ReadPlist(Written(Str(s), 0)) == None
  {
    WrittenIs(Str(s));
    BareText(s);
    assert forall i :: 0 <= i < |s| ==> Safe(s[i]);
    HeaderIsSkipped(s + "\n");
    assert s + "\n" == s + ("\n" + "");
    CommentIsSkipped(s, "");
  }

  lemma SlashSlashIsLost()
    ensures ReadPlist(Written(Str("//a"), 0)) == None
  {
    CommentIsLost("//a");
  }
}
