/** Names that belong to the depot itself, spelled out letter by letter. */
module DepotNames {
  import opened FileSystem
  import opened PathOrder
  import opened DepotModel

  const SMALL_LETTERS := ".darwindepot"
  const CAPITAL_LETTERS := ".DARWINDEPOT"

  /** ".DarwinDepot", each letter in either case. */
  predicate Spelled(n: string) {
    |n| == 12 && forall j :: 0 <= j < 12 ==> n[j] == SMALL_LETTERS[j] || n[j] == CAPITAL_LETTERS[j]
  }

  ghost predicate Spells(s: string, a: string, n: string, b: string) {
    s == a + n + b && Spelled(n)
  }

  /** The name of the depot's directory occurs somewhere in the text. */
  ghost predicate NamesDepot(s: string) {
    exists a, n, b :: Spells(s, a, n, b)
  }

  /** One of the names on the way to p does. */
  ghost predicate InDepot(p: Path) {
    exists i :: 0 <= i < |p| && NamesDepot(p[i])
  }

  lemma LetterByLetter(c: char, j: nat)
    requires j < 12
    ensures LowerChar(c) == DEPOT_NAME[j] <==> c == SMALL_LETTERS[j] || c == CAPITAL_LETTERS[j]
  {
    assert DEPOT_NAME[j] == SMALL_LETTERS[j];
    assert CAPITAL_LETTERS[j] ==
      if 'a' <= SMALL_LETTERS[j] <= 'z' then SMALL_LETTERS[j] - 'a' + 'A' else SMALL_LETTERS[j];
    assert !('A' <= SMALL_LETTERS[j] <= 'Z');
  }

  lemma SpelledIsLower(n: string)
    requires |n| == 12
    ensures Spelled(n) <==> Lower(n) == DEPOT_NAME
  {
    forall j: nat | j < 12
      ensures Lower(n)[j] == DEPOT_NAME[j] <==> n[j] == SMALL_LETTERS[j] || n[j] == CAPITAL_LETTERS[j]
    {
      LetterByLetter(n[j], j);
    }
  }

  lemma PartIsSpelled(s: string, j: nat)
    requires j <= |s|
    ensures DEPOT_NAME <= Lower(s)[j..] <==> j + 12 <= |s| && Spelled(s[j..j + 12])
  {
    assert |DEPOT_NAME| == 12;
    if j + 12 <= |s| {
      SpelledIsLower(s[j..j + 12]);
      assert Lower(s)[j..][..12] == Lower(s[j..j + 12]);
    }
  }

  ghost predicate SpelledAt(s: string, j: nat) {
    j + 12 <= |s| && Spelled(s[j..j + 12])
  }

  lemma NamedAt(s: string, j: nat)
    requires SpelledAt(s, j)
    ensures NamesDepot(s)
  {
    var a, n, b := s[..j], s[j..j + 12], s[j + 12..];
    assert s == a + n + b;
    assert Spells(s, a, n, b);
  }

  lemma NamedSomewhere(s: string) returns (j: nat)
    requires NamesDepot(s)
    ensures SpelledAt(s, j)
  {
    var a, n, b :| Spells(s, a, n, b);
    assert s[|a|..|a| + 12] == n;
    j := |a|;
  }

  lemma ContainsIsNamed(s: string)
    ensures Contains(Lower(s), DEPOT_NAME) <==> NamesDepot(s)
  {
    if j: nat :| j <= |s| && DEPOT_NAME <= Lower(s)[j..] {
      PartIsSpelled(s, j);
      NamedAt(s, j);
    }
    if NamesDepot(s) {
      var j := NamedSomewhere(s);
      PartIsSpelled(s, j);
    }
  }

  /** The program's search, with everything in small letters, finds exactly these paths. */
  lemma MentionedIsInDepot(p: Path)
    ensures MentionsDepot(p) <==> InDepot(p)
  {
    forall i | 0 <= i < |p|
      ensures Contains(Lower(p[i]), DEPOT_NAME) <==> NamesDepot(p[i])
    {
      ContainsIsNamed(p[i]);
    }
  }

  lemma NoSlashInside(n: string)
    requires Spelled(n)
    ensures '/' !in n
  {
    forall j | 0 <= j < 12
      ensures SMALL_LETTERS[j] != '/' && CAPITAL_LETTERS[j] != '/'
    {
    }
  }

  lemma SpelledInPart(s: string, from: nat, part: string, j: nat)
    requires from + |part| <= |s| && part == s[from..from + |part|]
    ensures SpelledAt(part, j) <==> from + j + 12 <= from + |part| && SpelledAt(s, from + j)
  {
    if j + 12 <= |part| {
      var n, m := part[j..j + 12], s[from + j..from + j + 12];
      forall k | 0 <= k < 12
        ensures n[k] == m[k]
      {
        assert n[k] == part[j + k] == s[from + (j + k)];
      }
      assert n == m;
    }
  }

  lemma SlashStays(s: string, at: nat, j: nat)
    requires at < |s| && s[at] == '/' && SpelledAt(s, j)
    ensures j + 12 <= at || at < j
  {
    var n := s[j..j + 12];
    if j <= at < j + 12 {
      assert s[at] == n[at - j];
    }
    NoSlashInside(n);
  }

  lemma NamedInPart(s: string, from: nat, part: string)
    requires from + |part| <= |s| && part == s[from..from + |part|] && NamesDepot(part)
    ensures NamesDepot(s)
  {
    var j := NamedSomewhere(part);
    SpelledInPart(s, from, part, j);
    NamedAt(s, from + j);
  }

  lemma NamedBesideSlash(up: string, last: string)
    requires NamesDepot(up + "/" + last)
    ensures NamesDepot(up) || NamesDepot(last)
  {
    var s := up + "/" + last;
    var j := NamedSomewhere(s);
    assert s[|up|] == '/' && s[0..|up|] == up && s[|up| + 1..|up| + 1 + |last|] == last;
    SlashStays(s, |up|, j);
    if j + 12 <= |up| {
      NamedWithin(s, 0, up, j);
    } else {
      NamedWithin(s, |up| + 1, last, j);
    }
  }

  lemma NamedWithin(s: string, from: nat, part: string, j: nat)
    requires from + |part| <= |s| && part == s[from..from + |part|]
    requires SpelledAt(s, j) && from <= j && j + 12 <= from + |part|
    ensures NamesDepot(part)
  {
    SpelledInPart(s, from, part, j - from);
    NamedAt(part, j - from);
  }

  /** The name never reaches across a slash. */
  lemma NamedOnOneSide(up: string, last: string)
    ensures NamesDepot(up + "/" + last) <==> NamesDepot(up) || NamesDepot(last)
  {
    var s := up + "/" + last;
    if NamesDepot(s) {
      NamedBesideSlash(up, last);
    }
    if NamesDepot(up) {
      NamedInPart(s, 0, up);
    }
    if NamesDepot(last) {
      NamedInPart(s, |up| + 1, last);
    }
  }

  lemma {:induction false} TextNamesDepot(p: Path)
    ensures NamesDepot(PathText(p)) <==> InDepot(p)
  {
    if p == [] {
      assert forall a, n, b :: |n| == 12 ==> a + n + b != "";
    } else {
      var up := p[..|p| - 1];
      TextNamesDepot(up);
      NamedOnOneSide(PathText(up), p[|p| - 1]);
      assert p == up + [p[|p| - 1]];
    }
  }

  /** Searching the path column as a whole comes to the same. */
  lemma MentionedInText(p: Path)
    ensures MentionsDepot(p) <==> NamesDepot(PathText(p))
  {
    TextNamesDepot(p);
    MentionedIsInDepot(p);
  }
}
