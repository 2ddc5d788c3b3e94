/**
 Removing repeated slashes from a path in place: join_path (darwinup/Utils.cpp) with a cursor that
 moves backwards, darwintrace_cleanup_path (darwintrace/darwintrace.c) with two states.
 */
module PathCompaction {
  const NUL := '\0'

  // ------------------------------------------------------------- what is computed

  predicate EndsInSlash(s: string) {
    s != [] && s[|s| - 1] == '/'
  }

  /** Each run of slashes becomes one slash. */
  function Squeeze(s: string): string {
    if s == [] then []
    else
      var rest, last := s[..|s| - 1], s[|s| - 1];
      if last == '/' && EndsInSlash(rest) then Squeeze(rest) else Squeeze(rest) + [last]
  }

  ghost predicate NoDoubles(s: string) {
    forall i, j :: 0 <= i < j < |s| && j == i + 1 ==> !(s[i] == '/' && s[j] == '/')
  }

  lemma {:induction false} SqueezeEnds(s: string)
    ensures EndsInSlash(Squeeze(s)) <==> EndsInSlash(s)
  {
    if s == [] {
    } else {
      SqueezeEnds(s[..|s| - 1]);
    }
  }

  lemma {:induction false} SqueezeHasNoDoubles(s: string)
    ensures NoDoubles(Squeeze(s))
  {
    if s == [] {
    } else {
      SqueezeHasNoDoubles(s[..|s| - 1]);
      SqueezeEnds(s[..|s| - 1]);
    }
  }

  lemma {:induction false} NothingToSqueeze(s: string)
    requires NoDoubles(s)
    ensures Squeeze(s) == s
  {
    if s == [] {
    } else {
      NothingToSqueeze(s[..|s| - 1]);
      assert s == s[..|s| - 1] + [s[|s| - 1]];
    }
  }

  /** The names in a path: what stands between slashes, without empty ones. */
  function Names(s: string): seq<string> {
    if s == [] then []
    else
      var rest, last := s[..|s| - 1], s[|s| - 1];
      if last == '/' then Names(rest)
      else if rest == [] || EndsInSlash(rest) then Names(rest) + [[last]]
      else
        var before := Names(rest);
        if before == [] then [[last]] else before[..|before| - 1] + [before[|before| - 1] + [last]]
  }

  /** No name is lost, joined or split, and no other character changes. */
  lemma {:induction false} SqueezeKeepsNames(s: string)
    ensures Names(Squeeze(s)) == Names(s)
    ensures Squeeze(s) == [] <==> s == []
    ensures s != [] ==> Squeeze(s)[0] == s[0]
  {
    if s == [] {
    } else {
      var rest, last := s[..|s| - 1], s[|s| - 1];
      SqueezeKeepsNames(rest);
      SqueezeEnds(rest);
      if !(last == '/' && EndsInSlash(rest)) {
        assert (Squeeze(rest) + [last])[..|Squeeze(rest)|] == Squeeze(rest);
      }
    }
  }

  lemma {:induction false} NamesAreNotEmpty(s: string)
    ensures forall i :: 0 <= i < |Names(s)| ==> Names(s)[i] != []
    ensures s != [] && !EndsInSlash(s) ==> Names(s) != []
  {
    if s == [] {
    } else {
      NamesAreNotEmpty(s[..|s| - 1]);
    }
  }

  lemma {:induction false} NoNames(s: string)
    requires NoDoubles(s) && Names(s) == []
    ensures s == [] || s == "/"
  {
    NamesAreNotEmpty(s);
    if s == [] {
    } else {
      var rest := s[..|s| - 1];
      NoNames(rest);
      assert s == rest + "/";
    }
  }

  /** The last name tells how a path that does not end in a slash ends. */
  lemma LastName(s: string)
    requires s != [] && !EndsInSlash(s)
    ensures Names(s) != []
    ensures var rest := s[..|s| - 1];
      var last := Names(s)[|Names(s)| - 1];
      && last != [] && last[|last| - 1] == s[|s| - 1]
      && (|last| == 1 <==> rest == [] || EndsInSlash(rest))
      && Names(rest) == Names(s)[..|Names(s)| - 1] + if |last| == 1 then [] else [last[..|last| - 1]]
  {
    var rest := s[..|s| - 1];
    NamesAreNotEmpty(s);
    NamesAreNotEmpty(rest);
    if rest == [] || EndsInSlash(rest) {
      assert Names(s)[..|Names(rest)|] == Names(rest);
    } else {
      var before := Names(rest);
      var last := before[|before| - 1] + [s[|s| - 1]];
      assert Names(s) == before[..|before| - 1] + [last];
      assert last[..|last| - 1] == before[|before| - 1];
      assert before == before[..|before| - 1] + [before[|before| - 1]];
    }
  }

  lemma SameLast(t: string, u: string)
    requires t != [] && u != [] && !EndsInSlash(t) && !EndsInSlash(u) && Names(t) == Names(u)
    ensures t[|t| - 1] == u[|u| - 1] && Names(t[..|t| - 1]) == Names(u[..|u| - 1])
    ensures var t', u' := t[..|t| - 1], u[..|u| - 1];
      t' == [] || EndsInSlash(t') <==> u' == [] || EndsInSlash(u')
  {
    LastName(t);
    LastName(u);
  }

  lemma Front(t: string)
    requires NoDoubles(t) && t != []
    ensures var t' := t[..|t| - 1];
      && t == t' + [t[|t| - 1]]
      && NoDoubles(t') && (t' != [] ==> t'[0] == t[0])
      && !(EndsInSlash(t) && EndsInSlash(t'))
      && (EndsInSlash(t) ==> Names(t') == Names(t))
  {
    assert t[|t| - 1] == '/' && |t| > 1 ==> t[|t| - 2] != '/';
  }

  /** Two paths without doubles are the same if they have the same names and the same ends. */
  lemma {:induction false} SamePath(t: string, u: string)
    requires NoDoubles(t) && NoDoubles(u) && Names(t) == Names(u)
    requires t != [] && u != [] && t[0] == u[0] && EndsInSlash(t) == EndsInSlash(u)
    ensures t == u
  {
    var t', u' := t[..|t| - 1], u[..|u| - 1];
    Front(t);
    Front(u);
    if !EndsInSlash(t) {
      SameLast(t, u);
    }
    if t' == [] || u' == [] {
      NoNames(t');
      NoNames(u');
    } else {
      SamePath(t', u');
    }
  }

  /** The result is the only path without doubles that has the names and the ends of the given one. */
  lemma SqueezeIsTheOnly(s: string, t: string)
    requires NoDoubles(t) && Names(t) == Names(s) && EndsInSlash(t) == EndsInSlash(s)
    requires t != [] && s != [] && t[0] == s[0]
    ensures t == Squeeze(s)
  {
    SqueezeHasNoDoubles(s);
    SqueezeKeepsNames(s);
    SqueezeEnds(s);
    SamePath(t, Squeeze(s));
  }

  lemma {:induction false} SqueezeOne(x: string, y: string)
    ensures Squeeze(x + "//" + y) == Squeeze(x + "/" + y)
  {
    if y == [] {
      var two := x + "//" + y;
      assert two[..|two| - 1] == x + "/" + y;
    } else {
      var fewer, last := y[..|y| - 1], y[|y| - 1];
      var two, one := x + "//" + y, x + "/" + y;
      assert two[..|two| - 1] == x + "//" + fewer && one[..|one| - 1] == x + "/" + fewer;
      SqueezeOne(x, fewer);
      assert EndsInSlash(x + "//" + fewer) == EndsInSlash(x + "/" + fewer);
    }
  }

  function Slashes(n: nat): string {
    seq(n, i => '/')
  }

  lemma {:induction false} SqueezeRun(x: string, n: nat, y: string)
    requires n > 0
    ensures Squeeze(x + Slashes(n) + y) == Squeeze(x + "/" + y)
  {
    if n == 1 {
      assert Slashes(1) == "/";
    } else {
      SqueezeRun(x, n - 1, y);
      var more := Slashes(n - 2) + y;
      assert x + Slashes(n) + y == x + "//" + more;
      assert x + Slashes(n - 1) + y == x + "/" + more;
      SqueezeOne(x, more);
    }
  }

  // ------------------------------------------------------------- C strings in memory

  /** The first NUL is at len. */
  ghost predicate IsString(buf: array<char>, len: nat)
    reads buf
  {
    len < buf.Length && buf[len] == NUL && forall i :: 0 <= i < len ==> buf[i] != NUL
  }

  method StrLen(buf: array<char>, from: nat, ghost len: nat) returns (n: nat)
    requires IsString(buf, len) && from <= len
    ensures from + n == len
  {
    n := 0;
    while buf[from + n] != NUL
      invariant from + n <= len
      decreases len - n
    {
      n := n + 1;
    }
  }

  /** Moves the string from cur on so that it follows the first slash of the run before it. */
  method CompactSlashes(buf: array<char>, cur: nat, count: nat, ghost len: nat) returns (back: nat, ghost shorter: nat)
    requires IsString(buf, len) && cur <= len && 1 < count <= cur
    requires buf[cur - count..cur] == Slashes(count)
    modifies buf
    ensures back == cur - count && shorter == len - (count - 1)
    ensures IsString(buf, shorter)
    ensures buf[..shorter] == old(buf[..cur - count]) + "/" + old(buf[cur..len])
  {
    var n := StrLen(buf, cur, len);
    forall k | 0 <= k <= n {
      buf[cur - count + 1 + k] := buf[cur + k];
    }
    back := cur - count;
    shorter := len - (count - 1);
    assert old(buf[cur - count]) == '/' by {
      assert old(buf[cur - count..cur])[0] == '/';
    }
    assert buf[..shorter] == old(buf[..cur - count]) + "/" + old(buf[cur..len]);
  }

  // ------------------------------------------------------------- join_path

  /** Where the cursor stands: everything before it is compact, counting the run of slashes right
      before it as one, and after a compaction it stands at the character behind the slash. */
  ghost predicate Scanned(text: string, cur: nat, slashes: nat) {
    && slashes <= cur <= |text|
    && text[cur - slashes..cur] == Slashes(slashes)
    && NoDoubles(text[..cur - slashes] + if slashes > 0 then "/" else "")
    && (slashes == 0 && 0 < cur && text[cur - 1] == '/' ==> cur < |text| && text[cur] != '/')
  }

  lemma SlashAfter(s: string)
    requires NoDoubles(s) && !EndsInSlash(s)
    ensures NoDoubles(s + "/")
  {
  }

  lemma SawSlash(text: string, cur: nat, slashes: nat)
    requires Scanned(text, cur, slashes) && cur < |text| && text[cur] == '/'
    ensures Scanned(text, cur + 1, slashes + 1)
  {
    assert text[cur - slashes..cur + 1] == text[cur - slashes..cur] + "/";
    assert Slashes(slashes + 1) == Slashes(slashes) + "/";
    if slashes == 0 {
      assert text[..cur] + "" == text[..cur];
      SlashAfter(text[..cur]);
    }
  }

  lemma SawOther(text: string, cur: nat, slashes: nat)
    requires Scanned(text, cur, slashes) && cur < |text| && text[cur] != '/' && slashes <= 1
    ensures Scanned(text, cur + 1, 0)
  {
    assert text[..cur + 1] == text[..cur - slashes] + Slashes(slashes) + [text[cur]];
    assert Slashes(0) == "" && Slashes(1) == "/";
    assert text[..cur + 1] + "" == text[..cur + 1];
    assert text[cur + 1..cur + 1] == Slashes(0);
  }

  lemma CompactedScan(text: string, cur: nat, slashes: nat, shorter: string)
    requires Scanned(text, cur, slashes) && slashes > 1
    requires shorter == text[..cur - slashes] + "/" + text[cur..]
    requires cur < |text|
    ensures text[cur] != '/' ==> Scanned(shorter, cur - slashes + 1, 0)
  {
    var a := cur - slashes;
    assert shorter[..a + 1] == text[..a] + "/";
    assert shorter[a + 1..a + 1] == Slashes(0);
    assert shorter[a + 1] == text[cur];
  }

  lemma Compacted(text: string, cur: nat, slashes: nat, shorter: string)
    requires Scanned(text, cur, slashes) && slashes > 1
    requires shorter == text[..cur - slashes] + "/" + text[cur..]
    ensures Squeeze(shorter) == Squeeze(text)
    ensures cur < |text| && text[cur] != '/' ==> Scanned(shorter, cur - slashes + 1, 0)
    ensures cur == |text| ==> NoDoubles(shorter)
  {
    var a := cur - slashes;
    SqueezeRun(text[..a], slashes, text[cur..]);
    assert text == text[..a] + text[a..cur] + text[cur..];
    if cur == |text| {
      assert shorter == text[..a] + "/";
    } else {
      CompactedScan(text, cur, slashes, shorter);
    }
  }

  lemma ScannedAll(text: string, slashes: nat)
    requires Scanned(text, |text|, slashes) && slashes <= 1
    ensures Squeeze(text) == text
  {
    assert text == text[..|text| - slashes] + text[|text| - slashes..|text|];
    assert Slashes(0) == "" && Slashes(1) == "/";
    NothingToSqueeze(text);
  }

  method Print(p1: string, p2: string) returns (buf: array<char>)
    requires NUL !in p1 && NUL !in p2
    ensures fresh(buf) && IsString(buf, |p1| + 1 + |p2|) && buf[..|p1| + 1 + |p2|] == p1 + "/" + p2
  {
    var text := p1 + "/" + p2;
    buf := new char[|text| + 1](_ => NUL);
    for i := 0 to |text|
      invariant forall j :: 0 <= j < i ==> buf[j] == text[j]
      invariant buf[|text|] == NUL
    {
      buf[i] := text[i];
    }
  }

  /** One character further, or back to the slash before a run that was compacted. */
  method Advance(out: array<char>, at: nat, count: nat, ghost len: nat)
    returns (cur: nat, slashes: nat, ghost shorter: nat)
    requires IsString(out, len) && Scanned(out[..len], at, count) && out[at] != NUL
    modifies out
    ensures IsString(out, shorter) && Scanned(out[..shorter], cur, slashes)
    ensures Squeeze(out[..shorter]) == Squeeze(old(out[..len]))
    ensures shorter < len || (shorter == len && cur == at + 1)
  {
    ghost var text := out[..len];
    cur, slashes, shorter := at, count, len;
    if out[cur] == '/' {
      SawSlash(text, at, count);
      slashes := slashes + 1;
    } else {
      if slashes > 1 {
        cur, shorter := CompactSlashes(out, cur, slashes, len);
        Compacted(text, at, count, out[..shorter]);
      } else {
        SawOther(text, at, count);
      }
      slashes := 0;
    }
    cur := cur + 1;
  }

  /** The run of slashes at the very end. */
  method Finish(out: array<char>, cur: nat, slashes: nat, ghost len: nat) returns (ghost shorter: nat)
    requires IsString(out, len) && Scanned(out[..len], cur, slashes) && cur == len
    modifies out
    ensures IsString(out, shorter) && out[..shorter] == Squeeze(old(out[..len]))
  {
    ghost var text := out[..len];
    if slashes > 1 {
      var back;
      back, shorter := CompactSlashes(out, cur, slashes, len);
      Compacted(text, cur, slashes, out[..shorter]);
      NothingToSqueeze(out[..shorter]);
    } else {
      shorter := len;
      ScannedAll(text, slashes);
    }
  }

  /** Always ends, although the cursor moves backwards: each time the string gets shorter. */
  method JoinPath(p1: string, p2: string) returns (out: array<char>, ghost len: nat)
    requires NUL !in p1 && NUL !in p2
    ensures fresh(out) && IsString(out, len) && out[..len] == Squeeze(p1 + "/" + p2)
  {
    out := Print(p1, p2);
    len := |p1| + 1 + |p2|;
    var slashes: nat, cur: nat := 0, 0;
    while out[cur] != NUL
      invariant IsString(out, len) && Scanned(out[..len], cur, slashes)
      invariant Squeeze(out[..len]) == Squeeze(p1 + "/" + p2)
      decreases len, len - cur
    {
      cur, slashes, len := Advance(out, cur, slashes, len);
    }
    len := Finish(out, cur, slashes, len);
  }

  // ------------------------------------------------------------- darwintrace_cleanup_path

  const RSRCFORKSPEC := "/..namedfork/rsrc"

  /** A path without the suffix that names its resource fork. */
  function Strip(s: string): string {
    if |s| > |RSRCFORKSPEC| && s[|s| - |RSRCFORKSPEC|..] == RSRCFORKSPEC then s[..|s| - |RSRCFORKSPEC|] else s
  }

  /** The text names the resource fork of p. */
  ghost predicate IsForkOf(s: string, p: string) {
    p != "" && s == p + "/..namedfork/rsrc"
  }

  /** A resource fork comes down to the file it belongs to, and all other paths stay as they are. */
  lemma ForkIsStripped(s: string)
    ensures forall p :: IsForkOf(s, p) ==> Strip(s) == p
    ensures (forall p :: !IsForkOf(s, p)) ==> Strip(s) == s
  {
    var n := |RSRCFORKSPEC|;
    assert n == 17;
    forall p | IsForkOf(s, p)
      ensures Strip(s) == p
    {
      assert s[|s| - n..] == RSRCFORKSPEC && s[..|s| - n] == p;
    }
    if |s| > n && s[|s| - n..] == RSRCFORKSPEC {
      assert s == s[..|s| - n] + RSRCFORKSPEC;
      assert IsForkOf(s, s[..|s| - n]);
    }
  }

  lemma {:induction false} SqueezeBringsNothing(s: string, c: char)
    ensures c in Squeeze(s) ==> c in s
  {
    if s == [] {
    } else {
      SqueezeBringsNothing(s[..|s| - 1], c);
    }
  }

  lemma SqueezeNext(t: string, i: nat)
    requires i < |t|
    ensures Squeeze(t[..i + 1]) ==
      if t[i] == '/' && EndsInSlash(t[..i]) then Squeeze(t[..i]) else Squeeze(t[..i]) + [t[i]]
  {
    assert t[..i + 1][..i] == t[..i];
  }

  datatype State = SawSlashes | Nothing

  method MoveDown(path: array<char>, i: nat, shiftamount: nat)
    requires shiftamount <= i < path.Length
    modifies path
    ensures path[..i - shiftamount + 1] == old(path[..i - shiftamount]) + [old(path[i])]
    ensures forall k :: i < k < path.Length ==> path[k] == old(path[k])
  {
    path[i - shiftamount] := path[i];
  }

  /** One round: the state it leads to, and whether the character is dropped. */
  method EmitOne(path: array<char>, i: nat, shiftamount: nat, state: State, ghost t: string)
      returns (next: State, dropped: bool)
    requires i < |t| <= path.Length && shiftamount <= i && path[i] == t[i]
    requires path[..i - shiftamount] == Squeeze(t[..i])
    requires state == SawSlashes <==> EndsInSlash(t[..i])
    modifies path
    ensures dropped ==> i > 0
    ensures path[..i + 1 - (shiftamount + if dropped then 1 else 0)] == Squeeze(t[..i + 1])
    ensures next == SawSlashes <==> EndsInSlash(t[..i + 1])
    ensures forall k :: i < k < path.Length ==> path[k] == old(path[k])
  {
    SqueezeNext(t, i);
    next, dropped := state, false;
    if state == SawSlashes {
      if path[i] == '/' {
        dropped := true;
      } else {
        next := Nothing;
        MoveDown(path, i, shiftamount);
      }
    } else {
      if path[i] == '/' {
        next := SawSlashes;
      }
      MoveDown(path, i, shiftamount);
    }
  }

  /** Emits the first slash of each run only; the NUL at the end is moved like any character. */
  method Emit(path: array<char>, pathlen: nat) returns (shiftamount: nat)
    requires IsString(path, pathlen)
    modifies path
    ensures shiftamount <= pathlen
    ensures path[..pathlen + 1 - shiftamount] == Squeeze(old(path[..pathlen + 1]))
  {
    ghost var t := path[..pathlen + 1];
    var state := Nothing;
    shiftamount := 0;
    for i := 0 to pathlen + 1
      invariant shiftamount <= i && (i > 0 ==> shiftamount < i)
      invariant path[..i - shiftamount] == Squeeze(t[..i])
      invariant forall k :: i <= k <= pathlen ==> path[k] == t[k]
      invariant state == SawSlashes <==> EndsInSlash(t[..i])
    {
      var dropped;
      state, dropped := EmitOne(path, i, shiftamount, state, t);
      shiftamount := shiftamount + if dropped then 1 else 0;
    }
    assert t[..pathlen + 1] == t;
  }

  /** strncmp with the suffix. */
  method HasForkSuffix(path: array<char>, pathlen: nat) returns (has: bool)
    requires IsString(path, pathlen) && pathlen > |RSRCFORKSPEC|
    ensures has <==> path[pathlen - |RSRCFORKSPEC|..pathlen] == RSRCFORKSPEC
  {
    for i := 0 to |RSRCFORKSPEC|
      invariant forall j :: 0 <= j < i ==> path[pathlen - |RSRCFORKSPEC| + j] == RSRCFORKSPEC[j]
    {
      if path[pathlen - |RSRCFORKSPEC| + i] != RSRCFORKSPEC[i] {
        assert path[pathlen - |RSRCFORKSPEC|..pathlen][i] != RSRCFORKSPEC[i];
        return false;
      }
    }
    return true;
  }

  method StripFork(path: array<char>, len: nat) returns (pathlen: nat)
    requires IsString(path, len)
    modifies path
    ensures IsString(path, pathlen) && path[..pathlen] == Strip(old(path[..len]))
  {
    var rsrclen := |RSRCFORKSPEC|;
    pathlen := len;
    if pathlen > rsrclen {
      var has := HasForkSuffix(path, pathlen);
      assert path[..len][len - rsrclen..] == path[len - rsrclen..len];
      if has {
        path[pathlen - rsrclen] := NUL;
        pathlen := pathlen - rsrclen;
      }
    }
  }

  lemma SqueezeString(s: string)
    requires NUL !in s
    ensures Squeeze(s + [NUL]) == Squeeze(s) + [NUL] && NUL !in Squeeze(s)
  {
    assert (s + [NUL])[..|s|] == s && (s + [NUL])[..|s| + 1] == s + [NUL];
    SqueezeNext(s + [NUL], |s|);
    SqueezeBringsNothing(s, NUL);
  }

  lemma EndOf(path: array<char>, text: string, pathlen: nat, shiftamount: nat) returns (shorter: nat)
    requires shiftamount <= pathlen < path.Length && NUL !in Squeeze(text)
    requires path[..pathlen + 1 - shiftamount] == Squeeze(text) + [NUL]
    ensures shorter == pathlen - shiftamount && IsString(path, shorter) && path[..shorter] == Squeeze(text)
  {
    shorter := pathlen - shiftamount;
    var all := path[..shorter + 1];
    assert all == Squeeze(text) + [NUL];
    assert |Squeeze(text)| == shorter && all[shorter] == NUL;
    forall i | 0 <= i < shorter
      ensures path[i] == Squeeze(text)[i] && path[i] != NUL
    {
      assert all[i] == Squeeze(text)[i] && Squeeze(text)[i] in Squeeze(text);
    }
  }

  /** Takes off the suffix of a resource fork, then makes each run of slashes one slash. */
  method CleanupPath(path: array<char>, ghost len: nat) returns (ghost shorter: nat)
    requires IsString(path, len)
    modifies path
    ensures IsString(path, shorter) && path[..shorter] == Squeeze(Strip(old(path[..len])))
    ensures forall p :: IsForkOf(old(path[..len]), p) ==> path[..shorter] == Squeeze(p)
    ensures (forall p :: !IsForkOf(old(path[..len]), p)) ==> path[..shorter] == Squeeze(old(path[..len]))
  {
    ForkIsStripped(path[..len]);
    var n := StrLen(path, 0, len);
    var pathlen := StripFork(path, n);
    ghost var text := path[..pathlen];
    assert path[..pathlen + 1] == text + [NUL];
    SqueezeString(text);
    var shiftamount := Emit(path, pathlen);
    shorter := EndOf(path, text, pathlen, shiftamount);
  }
}
