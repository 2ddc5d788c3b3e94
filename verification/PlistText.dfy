/**
 The printed form of property lists (darwinxref/cfutils.c).
 */
module PlistText {
  import opened CStrings
  import opened PropertyList
  import opened TextOrder
  import opened Wrappers

  const HEADER := "// !$*UTF8*$!\n"

  // ------------------------------------------------------------- what is printed

  /** Characters that need no quotes. */
  predicate Safe(c: char) {
    || 'A' <= c <= 'Z'
    || 'a' <= c <= 'z'
    || '0' <= c <= '9'
    || c == '/' || c == '.' || c == '_'
  }

  predicate NeedsQuotes(s: string) {
    s == [] || exists i :: 0 <= i < |s| && !Safe(s[i])
  }

  function Escaped(s: string): string {
    if s == [] then []
    else Escaped(s[..|s| - 1]) + (if s[|s| - 1] == '"' || s[|s| - 1] == '\\' then "\\" else "") + [s[|s| - 1]]
  }

  function StringText(s: string): string {
    var c := CString(s);
    if NeedsQuotes(c) then "\"" + Escaped(c) + "\"" else Escaped(c)
  }

  function Tabs(n: nat): string {
    seq(n, i => '\t')
  }

  ghost function EntriesText(p: Plist, keys: seq<string>, tabs: nat): string
    requires p.Dict? && forall k :: k in keys ==> k in p.entries
    decreases p, 0, |keys|
  {
    if keys == [] then []
    else
      var k := keys[|keys| - 1];
      EntriesText(p, keys[..|keys| - 1], tabs) + ("\t" + Tabs(tabs)) + StringText(k) + " = " +
      Text(p.entries[k], tabs + 1) + ";\n"
  }

  /** A plist without the header and the last newline. */
  ghost function Text(p: Plist, tabs: nat): string
    decreases p, 1
  {
    match p
    case Str(s) => StringText(s)
    case Arr(items) => "(\n" + ItemsText(items, tabs) + Tabs(tabs) + ")"
    case Dict(entries) => "{\n" + EntriesText(p, Sorted(entries.Keys), tabs) + Tabs(tabs) + "}"
  }

  ghost function ItemsText(items: seq<Plist>, tabs: nat): string
    decreases items, 0
  {
    if items == [] then []
    else ItemsText(items[..|items| - 1], tabs) + (Tabs(tabs) + "\t") + Text(items[|items| - 1], tabs + 1) + ",\n"
  }

  /** What is written for a plist at a level of indentation. */
  ghost function Written(p: Plist, tabs: nat): string {
    if tabs == 0 then HEADER + Text(p, tabs) + "\n" else Text(p, tabs)
  }

  // ------------------------------------------------------------- the shape of what is printed

  lemma Assoc(a: string, b: string, c: string)
    ensures a + b + c == a + (b + c)
  {
  }

  lemma EntryRegroup(a: string, b: string, c: string, d: string, e: string, f: string)
    ensures a + b + c + d + e + f == a + (b + (c + (d + (e + f))))
  {
    Assoc(a + b + c + d, e, f);
    Assoc(a + b + c, d, e + f);
    Assoc(a + b, c, d + (e + f));
    Assoc(a, b, c + (d + (e + f)));
  }

  function Code(c: char): string {
    (if c == '"' || c == '\\' then "\\" else "") + [c]
  }

  lemma EscapedLast(s: string)
    requires s != []
    ensures Escaped(s) == Escaped(s[..|s| - 1]) + Code(s[|s| - 1])
  {
    var c := s[|s| - 1];
    Assoc(Escaped(s[..|s| - 1]), if c == '"' || c == '\\' then "\\" else "", [c]);
  }

  lemma {:induction false} SafeIsUnescaped(s: string)
    requires forall i :: 0 <= i < |s| ==> Safe(s[i])
    ensures Escaped(s) == s
  {
    if s == [] {
    } else {
      SafeIsUnescaped(s[..|s| - 1]);
      assert s == s[..|s| - 1] + [s[|s| - 1]];
    }
  }

  ghost function ItemText(p: Plist, tabs: nat): string {
    (Tabs(tabs) + "\t") + Text(p, tabs + 1) + ",\n"
  }

  lemma ItemsTextLast(items: seq<Plist>, tabs: nat)
    requires items != []
    ensures ItemsText(items, tabs) == ItemsText(items[..|items| - 1], tabs) + ItemText(items[|items| - 1], tabs)
  {
    Regroup(ItemsText(items[..|items| - 1], tabs), Tabs(tabs) + "\t", Text(items[|items| - 1], tabs + 1), ",\n");
  }

  ghost function EntryText(key: string, p: Plist, tabs: nat): string {
    ("\t" + Tabs(tabs)) + StringText(key) + " = " + Text(p, tabs + 1) + ";\n"
  }

  lemma EntriesTextLast(p: Plist, keys: seq<string>, tabs: nat)
    requires p.Dict? && keys != [] && forall k :: k in keys ==> k in p.entries
    ensures var k := keys[|keys| - 1];
      EntriesText(p, keys, tabs) == EntriesText(p, keys[..|keys| - 1], tabs) + EntryText(k, p.entries[k], tabs)
  {
    var k := keys[|keys| - 1];
    var so := EntriesText(p, keys[..|keys| - 1], tabs);
    var b, name, text := "\t" + Tabs(tabs), StringText(k), Text(p.entries[k], tabs + 1);
    EntryRegroup(so, b, name, " = ", text, ";\n");
    EntryRegroup("", b, name, " = ", text, ";\n");
    assert "" + b == b && "" + (b + (name + (" = " + (text + ";\n")))) == b + (name + (" = " + (text + ";\n")));
  }

  lemma NextItem(items: seq<Plist>, i: nat, tabs: nat)
    requires i < |items|
    ensures ItemsText(items[..i + 1], tabs) == ItemsText(items[..i], tabs) + ItemText(items[i], tabs)
  {
    ItemsTextLast(items[..i + 1], tabs);
    assert items[..i + 1][..i] == items[..i];
  }

  lemma NextEntry(p: Plist, keys: seq<string>, i: nat, tabs: nat)
    requires p.Dict? && i < |keys| && forall k :: k in keys ==> k in p.entries
    ensures EntriesText(p, keys[..i + 1], tabs) ==
      EntriesText(p, keys[..i], tabs) + EntryText(keys[i], p.entries[keys[i]], tabs)
  {
    EntriesTextLast(p, keys[..i + 1], tabs);
    assert keys[..i + 1][..i] == keys[..i];
  }

  // ------------------------------------------------------------- printing

  lemma Regroup(a: string, b: string, c: string, d: string)
    ensures a + b + c + d == a + (b + c + d)
  {
  }

  lemma EntryGroups(a: string, b: string, c: string, d: string, e: string)
    ensures a + b + c + d + e == a + (b + (c + (d + e)))
  {
    Assoc(a + b + c, d, e);
    Assoc(a + b, c, d + e);
    Assoc(a, b, c + (d + e));
  }

  method MustQuote(utf8: string) returns (quote: bool)
    requires utf8 != [] && utf8[|utf8| - 1] == NUL && NUL !in utf8[..|utf8| - 1]
    ensures quote <==> NeedsQuotes(utf8[..|utf8| - 1])
  {
    ghost var c := utf8[..|utf8| - 1];
    assert forall j :: 0 <= j < |c| ==> utf8[j] == c[j] && c[j] in c;
    quote := false;
    var i := 0;
    while utf8[i] != NUL
      invariant 0 <= i < |utf8|
      invariant forall j :: 0 <= j < i ==> Safe(c[j])
      decreases |utf8| - i
    {
      assert i < |c|;
      if !Safe(utf8[i]) {
        return true;
      }
      i := i + 1;
    }
    assert i == |c|;
    quote := utf8[0] == NUL;
  }

  class Stream {
    var text: string

    constructor ()
      ensures text == ""
    {
      text := "";
    }

    method Put(s: string)
      modifies this
      ensures text == old(text) + s
    {
      text := text + s;
    }

    method PutEscaped(utf8: string)
      requires utf8 != [] && utf8[|utf8| - 1] == NUL && NUL !in utf8[..|utf8| - 1]
      modifies this
      ensures text == old(text) + Escaped(utf8[..|utf8| - 1])
    {
      ghost var c := utf8[..|utf8| - 1];
      assert forall j :: 0 <= j < |c| ==> utf8[j] == c[j] && c[j] in c;
      var i := 0;
      while utf8[i] != NUL
        invariant 0 <= i < |utf8|
        invariant text == old(text) + Escaped(c[..i])
        decreases |utf8| - i
      {
        assert i < |c| && c[..i + 1][..i] == c[..i];
        if utf8[i] == '"' || utf8[i] == '\\' {
          text := text + "\\";
        }
        text := text + [utf8[i]];
        i := i + 1;
      }
      assert i == |c| && c[..i] == c;
    }

    method PutString(s: string)
      modifies this
      ensures text == old(text) + StringText(s)
    {
      var utf8 := CString(s) + [NUL];
      assert utf8[..|utf8| - 1] == CString(s);
      var quote := MustQuote(utf8);
      if quote {
        Put("\"");
        PutEscaped(utf8);
        Put("\"");
        Regroup(old(text), "\"", Escaped(CString(s)), "\"");
      } else {
        PutEscaped(utf8);
      }
    }

    method WritePlist(p: Plist, tabs: nat)
      modifies this
      ensures text == old(text) + Written(p, tabs)
      decreases p, 2
    {
      if tabs == 0 {
        Put(HEADER);
        WriteBody(p, tabs);
        Put("\n");
        Regroup(old(text), HEADER, Text(p, tabs), "\n");
      } else {
        WriteBody(p, tabs);
      }
    }

    method WriteBody(p: Plist, tabs: nat)
      modifies this
      ensures text == old(text) + Text(p, tabs)
      decreases p, 1
    {
      match p {
        case Str(s) =>
          PutString(s);
        case Arr(items) =>
          Put("(\n");
          WriteItems(p, tabs);
          Put(Tabs(tabs) + ")");
          Regroup(old(text), "(\n", ItemsText(items, tabs), Tabs(tabs) + ")");
          assert Text(p, tabs) == "(\n" + ItemsText(items, tabs) + (Tabs(tabs) + ")");
        case Dict(entries) =>
          Put("{\n");
          WriteEntries(p, tabs);
          Put(Tabs(tabs) + "}");
          Regroup(old(text), "{\n", EntriesText(p, Sorted(entries.Keys), tabs), Tabs(tabs) + "}");
          assert Text(p, tabs) == "{\n" + EntriesText(p, Sorted(entries.Keys), tabs) + (Tabs(tabs) + "}");
      }
    }

    method WriteItem(p: Plist, tabs: nat)
      modifies this
      ensures text == old(text) + ItemText(p, tabs)
      decreases p, 3
    {
      Put(Tabs(tabs) + "\t");
      WritePlist(p, tabs + 1);
      Put(",\n");
      Regroup(old(text), Tabs(tabs) + "\t", Text(p, tabs + 1), ",\n");
    }

    method WriteItems(p: Plist, tabs: nat)
      requires p.Arr?
      modifies this
      ensures text == old(text) + ItemsText(p.items, tabs)
      decreases p, 0
    {
      for i := 0 to |p.items|
        invariant text == old(text) + ItemsText(p.items[..i], tabs)
      {
        WriteItem(p.items[i], tabs);
        NextItem(p.items, i, tabs);
        Assoc(old(text), ItemsText(p.items[..i], tabs), ItemText(p.items[i], tabs));
      }
      assert p.items[..|p.items|] == p.items;
    }

    method WriteEntry(key: string, p: Plist, tabs: nat)
      modifies this
      ensures text == old(text) + EntryText(key, p, tabs)
      decreases p, 3
    {
      Put("\t" + Tabs(tabs));
      PutString(key);
      Put(" = ");
      WritePlist(p, tabs + 1);
      Put(";\n");
      EntryRegroup(old(text), "\t" + Tabs(tabs), StringText(key), " = ", Text(p, tabs + 1), ";\n");
      EntryGroups("\t" + Tabs(tabs), StringText(key), " = ", Text(p, tabs + 1), ";\n");
    }

    method WriteEntries(p: Plist, tabs: nat)
      requires p.Dict?
      modifies this
      ensures text == old(text) + EntriesText(p, Sorted(p.entries.Keys), tabs)
      decreases p, 0
    {
      var keys := Sort(p.entries.Keys, x => x);
      SortedUnique(keys, p.entries.Keys);
      for i := 0 to |keys|
        invariant text == old(text) + EntriesText(p, keys[..i], tabs)
      {
        assert keys[i] in p.entries;
        WriteEntry(keys[i], p.entries[keys[i]], tabs);
        NextEntry(p, keys, i, tabs);
        Assoc(old(text), EntriesText(p, keys[..i], tabs), EntryText(keys[i], p.entries[keys[i]], tabs));
      }
      assert keys[..|keys|] == keys;
    }
  }

  // ------------------------------------------------------------- NUL

  lemma {:induction false} EscapedHasNoNul(s: string)
    requires NUL !in s
    ensures NUL !in Escaped(s)
  {
    if s == [] {
    } else {
      EscapedHasNoNul(s[..|s| - 1]);
    }
  }

  lemma StringTextHasNoNul(s: string)
    ensures NUL !in StringText(s)
  {
    EscapedHasNoNul(CString(s));
  }

  lemma {:induction false} EntriesHaveNoNul(p: Plist, keys: seq<string>, tabs: nat)
    requires p.Dict? && forall k :: k in keys ==> k in p.entries
    ensures NUL !in EntriesText(p, keys, tabs)
    decreases p, 0, |keys|
  {
    if keys == [] {
    } else {
      var k := keys[|keys| - 1];
      EntriesHaveNoNul(p, keys[..|keys| - 1], tabs);
      StringTextHasNoNul(k);
      TextHasNoNul(p.entries[k], tabs + 1);
    }
  }

  lemma {:induction false} TextHasNoNul(p: Plist, tabs: nat)
    ensures NUL !in Text(p, tabs)
    decreases p, 1
  {
    match p
    case Str(s) => StringTextHasNoNul(s);
    case Arr(items) => ItemsHaveNoNul(items, tabs);
    case Dict(entries) => EntriesHaveNoNul(p, Sorted(entries.Keys), tabs);
  }

  lemma {:induction false} ItemsHaveNoNul(items: seq<Plist>, tabs: nat)
    ensures NUL !in ItemsText(items, tabs)
    decreases items, 0
  {
    if items == [] {
    } else {
      ItemsHaveNoNul(items[..|items| - 1], tabs);
      TextHasNoNul(items[|items| - 1], tabs + 1);
    }
  }

  lemma {:induction false} CStringStops(s: string, more: string)
    requires NUL !in s
    ensures CString(s + [NUL] + more) == s
  {
    if s == [] {
    } else {
      assert (s + [NUL] + more)[1..] == s[1..] + [NUL] + more;
      CStringStops(s[1..], more);
      assert s == [s[0]] + s[1..];
    }
  }

  /** Of a string with a NUL only the part before it is printed. */
  lemma NulEndsAString(s: string, more: string)
    requires NUL !in s
    ensures Written(Str(s + [NUL] + more), 0) == Written(Str(s), 0)
  {
    CStringStops(s, more);
  }
}
