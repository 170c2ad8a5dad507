/** The remediation strategies of `ErrorFixer`: the `tsconfig.json` flag flip
    and the four single-line TypeScript rewrites. Each regular expression the
    fixer passes to `re.sub`/`re.search` is written out as an explicit scanner
    with Python's semantics (leftmost match, greedy quantifiers, replacements
    that do not overlap and scan on after the replaced text). A strategy
    returns `None` when it declines and the rewritten text when it applies. */
module Strategies {
  import opened Common
  import opened Text

  // ---------------------------------------------------------------------
  // tsconfig.json: "noEmit": true  ->  "noEmit": false
  // ---------------------------------------------------------------------

  const NoEmitTrue := "\"noEmit\": true"
  const NoEmitFalse := "\"noEmit\": false"

  /** The outcome of `fix_tsconfig_no_emit` on the file's text. */
  datatype FlagFix = FlagFix(applied: bool, content: string)

  /** The fix applies exactly when the literal flag occurs; it then rewrites
      every occurrence, so that none is left; otherwise nothing is written. */
  function FixTsconfig(content: string): (r: FlagFix)
    ensures r.applied <==> Contains(content, NoEmitTrue)
    ensures !r.applied ==> r.content == content
    ensures r.applied ==> !Contains(r.content, NoEmitTrue)
    ensures r.applied ==> r.content == ReplaceAll(content, NoEmitTrue, NoEmitFalse)
  {
    if Contains(content, NoEmitTrue) then
      NoEmitGone(content);
      FlagFix(true, ReplaceAll(content, NoEmitTrue, NoEmitFalse))
    else
      FlagFix(false, content)
  }

  /** Applying the fix to its own output declines and leaves the text alone. */
  lemma TsconfigIdempotent(content: string)
    ensures FixTsconfig(FixTsconfig(content).content) == FlagFix(false, FixTsconfig(content).content)
  {
  }

  /** `r` could begin at offset `j` of `w`: the characters of `w` from `j` on
      agree with the start of `r`. */
  ghost predicate AlignsAt(w: string, j: int, r: string) {
    forall k :: 0 <= k < |r| && 0 <= j + k < |w| ==> w[j + k] == r[k]
  }

  /** A prefix of the replaced text that nowhere lines up with the replacement
      was copied unchanged from the original. */
  lemma {:induction false} PrefixSurvivesReplace(t: string, w: string)
    requires forall j :: 0 <= j < |w| ==> !AlignsAt(w, j, NoEmitFalse)
    ensures w <= ReplaceAll(t, NoEmitTrue, NoEmitFalse) ==> w <= t
    decreases |t|
  {
    if w != [] && t != [] {
      var out := ReplaceAll(t, NoEmitTrue, NoEmitFalse);
      if NoEmitTrue <= t {
        assert out == NoEmitFalse + ReplaceAll(t[|NoEmitTrue|..], NoEmitTrue, NoEmitFalse);
        assert w <= out ==> AlignsAt(w, 0, NoEmitFalse);
      } else {
        var rest := ReplaceAll(t[1..], NoEmitTrue, NoEmitFalse);
        assert out == [t[0]] + rest;
        forall j | 0 <= j < |w[1..]|
          ensures !AlignsAt(w[1..], j, NoEmitFalse)
        {
          assert AlignsAt(w[1..], j, NoEmitFalse) ==> AlignsAt(w, j + 1, NoEmitFalse);
        }
        PrefixSurvivesReplace(t[1..], w[1..]);
        assert w <= out ==> w[1..] <= rest;
      }
    }
  }

  /** No character of `"noEmit": true` after its first lines up with `"noEmit": false`. */
  lemma TailNeverAligns()
    ensures forall j :: 0 <= j < |NoEmitTrue[1..]| ==> !AlignsAt(NoEmitTrue[1..], j, NoEmitFalse)
  {
    var w := NoEmitTrue[1..];
    forall j | 0 <= j < |w|
      ensures !AlignsAt(w, j, NoEmitFalse)
    {
      var k := if j == 6 then 1 else 0;
      assert w[j + k] != NoEmitFalse[k];
    }
  }

  /** Putting `"noEmit": false` in front of a text without the flag does not create one. */
  lemma NoEmitAfterFalse(rest: string)
    requires !Contains(rest, NoEmitTrue)
    ensures !Contains(NoEmitFalse + rest, NoEmitTrue)
  {
    forall i | 0 <= i < |NoEmitFalse|
      ensures !(NoEmitTrue <= (NoEmitFalse + rest)[i..])
    {
      var k := if i == 0 then 10 else if i == 7 then 1 else 0;
      assert (NoEmitFalse + rest)[i + k] == NoEmitFalse[i + k] != NoEmitTrue[k];
    }
    ContainsAppendForm(NoEmitFalse, rest, NoEmitTrue);
  }

  /** After `str.replace`, the flag `"noEmit": true` no longer occurs. */
  lemma {:induction false} NoEmitGone(s: string)
    ensures !Contains(ReplaceAll(s, NoEmitTrue, NoEmitFalse), NoEmitTrue)
    decreases |s|
  {
    var out := ReplaceAll(s, NoEmitTrue, NoEmitFalse);
    if s == [] {
    } else if NoEmitTrue <= s {
      var rest := ReplaceAll(s[|NoEmitTrue|..], NoEmitTrue, NoEmitFalse);
      NoEmitGone(s[|NoEmitTrue|..]);
      assert out == NoEmitFalse + rest;
      NoEmitAfterFalse(rest);
    } else {
      var rest := ReplaceAll(s[1..], NoEmitTrue, NoEmitFalse);
      NoEmitGone(s[1..]);
      assert out == [s[0]] + rest;
      var tail, rest0 := NoEmitTrue[1..], s[1..];
      TailNeverAligns();
      PrefixSurvivesReplace(rest0, tail);
      PrefixOfCons(s[0], rest, NoEmitTrue);
      PrefixOfCons(s[0], rest0, NoEmitTrue);
      assert s == [s[0]] + rest0;
    }
  }

  /** A non-empty `p` starts `[c] + x` exactly when it starts with `c` and its tail starts `x`. */
  lemma PrefixOfCons(c: char, x: string, p: string)
    requires p != []
    ensures p <= [c] + x <==> p[0] == c && p[1..] <= x
  {
    if p[0] == c && p[1..] <= x {
      assert p == [c] + p[1..];
    }
  }

  /** A prefix agrees with the text it starts, index by index. */
  lemma PrefixAt(p: string, t: string, k: nat)
    requires k < |p|
    ensures p <= t ==> k < |t| && p[k] == t[k]
  {
  }

  /** `ContainsAppend` stated as an implication, for use without a case split. */
  lemma ContainsAppendForm(a: string, x: string, p: string)
    ensures Contains(a + x, p) ==> (exists i :: 0 <= i < |a| && p <= (a + x)[i..]) || Contains(x, p)
  {
    if Contains(a + x, p) {
      ContainsAppend(a, x, p);
    }
  }

  // ---------------------------------------------------------------------
  // TS2307: from ["'](\.\./)*shared-ui-lib  ->  from '<../ x (depth+1)>shared-ui-lib
  // ---------------------------------------------------------------------

  const SharedLib := "shared-ui-lib"

  /** The number of `src` components of a resolved path (`file_path.parts`). */
  function SrcDepth(parts: seq<string>): (n: nat)
    ensures n <= |parts|
    ensures n == 0 <==> "src" !in parts
    ensures n == multiset(parts)["src"]
    decreases |parts|
  {
    if parts == [] then 0
    else
      assert parts == [parts[0]] + parts[1..];
      (if parts[0] == "src" then 1 else 0) + SrcDepth(parts[1..])
  }

  /** `t` starts with `../`. */
  predicate StartsUp(t: string) {
    |t| >= 3 && t[0] == '.' && t[1] == '.' && t[2] == '/'
  }

  /** How many times the greedy `(\.\./)*` repeats at the start of `t`. */
  function DotDots(t: string): (n: nat)
    ensures 3 * n <= |t| && !StartsUp(t[3 * n..])
    decreases |t|
  {
    if StartsUp(t) then 1 + DotDots(t[3..]) else 0
  }

  /** The repeated part consists of dots and slashes only. */
  lemma {:induction false} DotDotsChars(t: string)
    ensures forall i :: 0 <= i < 3 * DotDots(t) ==> t[i] == '.' || t[i] == '/'
    decreases |t|
  {
    if StartsUp(t) {
      DotDotsChars(t[3..]);
      assert forall i :: 3 <= i < 3 * DotDots(t) ==> t[i] == t[3..][i - 3];
    }
  }

  /** Length of the match of `from ["'](\.\./)*shared-ui-lib` at the start of `t`. */
  function ImportMatch(t: string): (m: Option<nat>)
    ensures m.Some? ==> 6 + |SharedLib| <= m.value <= |t|
  {
    if 6 <= |t| && t[..5] == "from " && (t[5] == '"' || t[5] == '\'') then
      var n := DotDots(t[6..]);
      if SharedLib <= t[6 + 3 * n..] then Some(6 + 3 * n + |SharedLib|) else None
    else None
  }

  /** The replacement text `from '` + `"../" * (depth + 1)` + `shared-ui-lib`. */
  function Specifier(depth: nat): string {
    "from '" + Repeat("../", depth + 1) + SharedLib
  }

  /** `re.sub` of the import pattern: every match, left to right, becomes `spec`. */
  function RewriteImports(s: string, spec: string): string
    decreases |s|
  {
    if s == [] then []
    else match ImportMatch(s)
      case Some(len) => spec + RewriteImports(s[len..], spec)
      case None => [s[0]] + RewriteImports(s[1..], spec)
  }

  /** The TS2307 line fix: declines unless the line mentions `shared-ui-lib`
      and the file has a `src` component; applies only when the line changes. */
  function FixImportLine(target: string, depth: nat): (r: Option<string>)
    ensures r.Some? <==> Contains(target, SharedLib) && depth > 0 && RewriteImports(target, Specifier(depth)) != target
    ensures r.Some? ==> r.value == RewriteImports(target, Specifier(depth))
    ensures r.Some? ==> RewriteImports(r.value, Specifier(depth)) == r.value
  {
    if !Contains(target, SharedLib) || depth == 0 then None
    else
      var updated := RewriteImports(target, Specifier(depth));
      RewriteImportsIdempotent(target, depth);
      if updated != target then Some(updated) else None
  }

  /** One more leading `../` is one more repetition. */
  lemma DotDotsCons(z: string)
    ensures DotDots("../" + z) == 1 + DotDots(z)
  {
    var t := "../" + z;
    assert StartsUp(t);
    assert t[3..] == z;
  }

  /** The first of `m > 0` repetitions split off. */
  lemma RepeatCons(m: nat, y: string)
    requires m > 0
    ensures Repeat("../", m) + y == "../" + (Repeat("../", m - 1) + y)
  {
  }

  /** One more repetition in front adds one to the count. */
  lemma DotDotsRepeatStep(m: nat, y: string)
    requires m > 0 && DotDots(Repeat("../", m - 1) + y) == m - 1
    ensures DotDots(Repeat("../", m) + y) == m
  {
    RepeatCons(m, y);
    DotDotsCons(Repeat("../", m - 1) + y);
  }

  /** `(\.\./)*` counts exactly the `../` in front of text that does not start with one. */
  lemma {:induction false} DotDotsRepeat(m: nat, y: string)
    requires !StartsUp(y)
    ensures DotDots(Repeat("../", m) + y) == m
    decreases m
  {
    if m == 0 {
      assert Repeat("../", m) + y == y;
    } else {
      DotDotsRepeat(m - 1, y);
      DotDotsRepeatStep(m, y);
    }
  }

  /** `from '` followed by `m` times `../` and the library name is a match. */
  lemma MatchOfShape(t: string, m: nat, x: string)
    requires 6 <= |t| && t[..5] == "from " && t[5] == '\''
    requires t[6..] == Repeat("../", m) + (SharedLib + x)
    ensures ImportMatch(t) == Some(6 + 3 * m + |SharedLib|)
  {
    var tail := SharedLib + x;
    assert tail[0] == 's';
    DotDotsRepeat(m, tail);
    assert t[6..][3 * m..] == tail;
  }

  /** The replacement text is itself one whole match, whatever follows it. */
  lemma SpecifierMatches(depth: nat, x: string)
    ensures ImportMatch(Specifier(depth) + x) == Some(|Specifier(depth)|)
  {
    var dots := Repeat("../", depth + 1);
    var tail := SharedLib + x;
    var t := Specifier(depth) + x;
    assert t == "from '" + (dots + tail);
    assert t[..5] == "from " && t[5] == '\'';
    assert t[6..] == dots + tail;
    MatchOfShape(t, depth + 1, x);
  }

  /** Inside a match, only the first character can be an `f`. */
  lemma MatchHasNoF(u: string)
    requires ImportMatch(u).Some?
    ensures forall i :: 1 <= i < ImportMatch(u).value ==> u[i] != 'f'
  {
    var a := u[6..];
    var n := DotDots(a);
    DotDotsChars(a);
    assert u[..5] == "from ";
    forall i | 1 <= i < ImportMatch(u).value
      ensures u[i] != 'f'
    {
      if i < 5 {
        assert u[i] == u[..5][i];
      } else if 6 <= i < 6 + 3 * n {
        assert u[i] == a[i - 6];
      } else if 6 + 3 * n <= i {
        assert u[i] == a[3 * n..][i - 6 - 3 * n] == SharedLib[i - 6 - 3 * n];
      }
    }
  }

  /** Peeling one `../` off two texts that agree on the first `3n + 1`
      characters keeps them agreeing on the first `3(n - 1) + 1`. */
  lemma DotDotsAgreeStep(a: string, b: string, n: nat)
    requires n > 0 && DotDots(a) == n && 3 * n < |a| && 3 * n < |b|
    requires a[..3 * n + 1] == b[..3 * n + 1]
    ensures DotDots(a[3..]) == n - 1 && 3 * (n - 1) < |a[3..]| && 3 * (n - 1) < |b[3..]|
    ensures a[3..][..3 * (n - 1) + 1] == b[3..][..3 * (n - 1) + 1]
    ensures a[3..][3 * (n - 1)] == a[3 * n]
    ensures DotDots(b) == 1 + DotDots(b[3..])
  {
    assert StartsUp(a);
    assert a[..3 * n + 1][..3] == a[..3] && b[..3 * n + 1][..3] == b[..3];
    assert StartsUp(b);
    assert a[..3 * n + 1][3..] == a[3..][..3 * (n - 1) + 1];
    assert b[..3 * n + 1][3..] == b[3..][..3 * (n - 1) + 1];
  }

  /** Two texts that agree on the first `3n + 1` characters, the last of them
      not a dot, have the same count of leading `../`. */
  lemma {:induction false} DotDotsAgree(a: string, b: string, n: nat)
    requires DotDots(a) == n && 3 * n < |a| && 3 * n < |b|
    requires a[..3 * n + 1] == b[..3 * n + 1] && a[3 * n] != '.'
    ensures DotDots(b) == n
    decreases n
  {
    if n == 0 {
      assert b[0] == a[..1][0];
    } else {
      DotDotsAgreeStep(a, b, n);
      DotDotsAgree(a[3..], b[3..], n - 1);
    }
  }

  /** What a match of the import pattern consists of. */
  lemma ImportMatchElim(u: string)
    requires ImportMatch(u).Some?
    ensures 6 <= |u| && u[..5] == "from " && (u[5] == '"' || u[5] == '\'')
    ensures ImportMatch(u).value == 6 + 3 * DotDots(u[6..]) + |SharedLib|
    ensures SharedLib <= u[6..][3 * DotDots(u[6..])..]
  {
  }

  /** Those parts make a match. */
  lemma ImportMatchIntro(s: string)
    requires 6 <= |s| && s[..5] == "from " && (s[5] == '"' || s[5] == '\'')
    requires SharedLib <= s[6..][3 * DotDots(s[6..])..]
    ensures ImportMatch(s) == Some(6 + 3 * DotDots(s[6..]) + |SharedLib|)
  {
  }

  /** Texts that agree on their first `len` characters agree on every window within them. */
  lemma WindowAgrees(u: string, s: string, len: nat, k: nat, j: nat)
    requires k + j <= len <= |u| && len <= |s| && s[..len] == u[..len]
    ensures s[k..][..j] == u[k..][..j]
  {
    assert s[k..][..j] == s[..len][k..k + j];
    assert u[k..][..j] == u[..len][k..k + j];
  }

  /** The `from "` or `from '` head carries over. */
  lemma HeadTransfer(u: string, s: string, len: nat)
    requires 6 <= len <= |u| && len <= |s| && s[..len] == u[..len]
    requires u[..5] == "from " && (u[5] == '"' || u[5] == '\'')
    ensures s[..5] == "from " && (s[5] == '"' || s[5] == '\'')
  {
    WindowAgrees(u, s, len, 0, 6);
    assert s[..5] == s[0..][..6][..5] && u[..5] == u[0..][..6][..5];
    assert s[5] == s[0..][..6][5] && u[5] == u[0..][..6][5];
  }

  /** The leading `../` count carries over. */
  lemma DotDotsTransfer(u: string, s: string, n: nat, len: nat)
    requires 6 + 3 * n < len <= |u| && len <= |s| && s[..len] == u[..len]
    requires n == DotDots(u[6..]) && u[6..][3 * n] != '.'
    ensures DotDots(s[6..]) == n
  {
    WindowAgrees(u, s, len, 6, 3 * n + 1);
    DotDotsAgree(u[6..], s[6..], n);
  }

  /** The library name after the `../` run carries over. */
  lemma LibTransfer(u: string, s: string, n: nat, len: nat)
    requires len == 6 + 3 * n + |SharedLib| && len <= |u| && len <= |s| && s[..len] == u[..len]
    requires SharedLib <= u[6..][3 * n..]
    ensures SharedLib <= s[6..][3 * n..]
  {
    WindowAgrees(u, s, len, 6 + 3 * n, |SharedLib|);
    assert u[6..][3 * n..] == u[6 + 3 * n..] && s[6..][3 * n..] == s[6 + 3 * n..];
  }

  /** The parts of a match carry over to a text that agrees on its span. */
  lemma MatchPartsTransfer(u: string, s: string, n: nat, len: nat)
    requires 6 <= |u| && u[..5] == "from " && (u[5] == '"' || u[5] == '\'')
    requires n == DotDots(u[6..]) && SharedLib <= u[6..][3 * n..] && len == 6 + 3 * n + |SharedLib|
    requires len <= |s| && s[..len] == u[..len]
    ensures 6 <= |s| && s[..5] == "from " && (s[5] == '"' || s[5] == '\'')
    ensures DotDots(s[6..]) == n && SharedLib <= s[6..][3 * n..]
  {
    HeadTransfer(u, s, len);
    assert u[6..][3 * n] == u[6..][3 * n..][0] == 's';
    DotDotsTransfer(u, s, n, len);
    LibTransfer(u, s, n, len);
  }

  /** Whether the pattern matches depends only on the characters it spans. */
  lemma MatchDependsOnSpan(u: string, s: string)
    requires ImportMatch(u).Some?
    ensures var len := ImportMatch(u).value;
            len <= |s| && s[..len] == u[..len] ==> ImportMatch(s) == Some(len)
  {
    var len := ImportMatch(u).value;
    if len <= |s| && s[..len] == u[..len] {
      ImportMatchElim(u);
      MatchPartsTransfer(u, s, DotDots(u[6..]), len);
      ImportMatchIntro(s);
    }
  }

  /** A prefix of the rewritten text without any `f` was copied unchanged. */
  lemma {:induction false} PrefixSurvivesRewrite(t: string, w: string, spec: string)
    requires spec != [] && spec[0] == 'f'
    requires forall i :: 0 <= i < |w| ==> w[i] != 'f'
    ensures w <= RewriteImports(t, spec) ==> w <= t
    decreases |t|
  {
    if w != [] && t != [] {
      match ImportMatch(t)
      case Some(len) =>
        assert RewriteImports(t, spec)[0] == 'f';
      case None =>
        PrefixSurvivesRewrite(t[1..], w[1..], spec);
        assert RewriteImports(t, spec) == [t[0]] + RewriteImports(t[1..], spec);
    }
  }

  /** A match in the rewritten text that starts at a copied character spans
      only copied characters. */
  lemma MatchSpanCopied(s: string, depth: nat)
    requires s != []
    ensures var u := [s[0]] + RewriteImports(s[1..], Specifier(depth));
            ImportMatch(u).Some? ==>
              ImportMatch(u).value <= |s| && s[..ImportMatch(u).value] == u[..ImportMatch(u).value]
  {
    var spec := Specifier(depth);
    var y := RewriteImports(s[1..], spec);
    var u := [s[0]] + y;
    if ImportMatch(u).Some? {
      var len := ImportMatch(u).value;
      var w := y[..len - 1];
      WindowHasNoF(s[0], y);
      PrefixSurvivesRewrite(s[1..], w, spec);
      ConsWindow(s[0], y, len);
      ConsWindow(s[0], s[1..], len);
      assert s == [s[0]] + s[1..];
    }
  }

  /** The part of a match after its first character holds no `f`. */
  lemma WindowHasNoF(c: char, y: string)
    requires ImportMatch([c] + y).Some?
    ensures var w := y[..ImportMatch([c] + y).value - 1];
            forall i :: 0 <= i < |w| ==> w[i] != 'f'
  {
    var u := [c] + y;
    MatchHasNoF(u);
    var w := y[..ImportMatch(u).value - 1];
    forall i | 0 <= i < |w| ensures w[i] != 'f' {
      assert w[i] == u[i + 1];
    }
  }

  /** The first `len` characters of `[c] + y`, and the window after `c`. */
  lemma ConsWindow(c: char, y: string, len: nat)
    requires 1 <= len <= 1 + |y|
    ensures ([c] + y)[..len] == [c] + y[..len - 1]
    ensures ([c] + y)[1..len] == y[..len - 1]
  {
  }

  /** Copying a character that started no match never creates one. */
  lemma NoNewMatch(s: string, depth: nat)
    requires s != [] && ImportMatch(s).None?
    ensures ImportMatch([s[0]] + RewriteImports(s[1..], Specifier(depth))).None?
  {
    var u := [s[0]] + RewriteImports(s[1..], Specifier(depth));
    MatchSpanCopied(s, depth);
    if ImportMatch(u).Some? {
      MatchDependsOnSpan(u, s);
      assert false;
    }
  }

  /** Re-running the import rewrite on its own output changes nothing. */
  lemma {:induction false} RewriteImportsIdempotent(s: string, depth: nat)
    ensures RewriteImports(RewriteImports(s, Specifier(depth)), Specifier(depth)) == RewriteImports(s, Specifier(depth))
    decreases |s|
  {
    var spec := Specifier(depth);
    if s != [] {
      match ImportMatch(s)
      case Some(len) =>
        var x := RewriteImports(s[len..], spec);
        RewriteImportsIdempotent(s[len..], depth);
        SpecifierMatches(depth, x);
        assert (spec + x)[|spec|..] == x;
      case None =>
        var y := RewriteImports(s[1..], spec);
        RewriteImportsIdempotent(s[1..], depth);
        NoNewMatch(s, depth);
        assert ([s[0]] + y)[1..] == y;
    }
  }

  // ---------------------------------------------------------------------
  // Diagnostic messages: re.search(r"<head>(\w+)<tail>", message)
  // ---------------------------------------------------------------------

  /** `head(\w+)tail` matches at offset `i` of `msg`. The run of word
      characters is taken greedily; both tails the fixer uses begin with a
      quote, so giving characters back to `tail` can never help the match. */
  predicate QuotedAt(msg: string, i: nat, head: string, tail: string) {
    i + |head| <= |msg| && head <= msg[i..]
    && WordEnd(msg, i + |head|) > i + |head| && tail <= msg[WordEnd(msg, i + |head|)..]
  }

  /** The word a match at offset `i` captures. */
  function QuotedWord(msg: string, i: nat, head: string): string
    requires i + |head| <= |msg|
  {
    msg[i + |head|..WordEnd(msg, i + |head|)]
  }

  /** `re.search` from offset `i` on: the first offset where the pattern matches. */
  function QuotedFrom(msg: string, i: nat, head: string, tail: string): (r: Option<nat>)
    requires i <= |msg|
    ensures r.None? <==> forall j :: i <= j <= |msg| ==> !QuotedAt(msg, j, head, tail)
    ensures r.Some? ==> i <= r.value < |msg| && QuotedAt(msg, r.value, head, tail)
    ensures r.Some? ==> forall j :: i <= j < r.value ==> !QuotedAt(msg, j, head, tail)
    decreases |msg| - i
  {
    if i == |msg| then None
    else if QuotedAt(msg, i, head, tail) then Some(i)
    else
      var r := QuotedFrom(msg, i + 1, head, tail);
      assert r.Some? ==> forall j :: i <= j < r.value ==> j == i || !QuotedAt(msg, j, head, tail);
      r
  }

  /** The word captured by the leftmost match of `head(\w+)tail` in `msg`:
      `None` exactly when the pattern matches nowhere. */
  function FindQuotedWord(msg: string, head: string, tail: string): (r: Option<string>)
    ensures r.None? <==> forall i :: 0 <= i <= |msg| ==> !QuotedAt(msg, i, head, tail)
    ensures r.Some? ==> exists i :: 0 <= i < |msg| && QuotedAt(msg, i, head, tail)
                          && (forall j :: 0 <= j < i ==> !QuotedAt(msg, j, head, tail))
                          && r.value == QuotedWord(msg, i, head)
    ensures r.Some? ==> r.value != [] && AllWord(r.value) && Contains(msg, head + r.value + tail)
    ensures !Contains(msg, head) ==> r.None?
  {
    match QuotedFrom(msg, 0, head, tail)
    case None => None
    case Some(i) =>
      QuotedContains(msg, i, head, tail);
      Some(QuotedWord(msg, i, head))
  }

  /** The text a match covers occurs in the message, and so does its head. */
  lemma QuotedContains(msg: string, i: nat, head: string, tail: string)
    requires QuotedAt(msg, i, head, tail)
    ensures Contains(msg, head + QuotedWord(msg, i, head) + tail) && Contains(msg, head)
  {
    var e := WordEnd(msg, i + |head|);
    var w := QuotedWord(msg, i, head);
    assert msg[i..e + |tail|] == head + w + tail;
    assert msg == msg[..i] + (head + w + tail) + msg[e + |tail|..];
    ContainsInfix(msg[..i], head + w + tail, msg[e + |tail|..]);
    assert msg == msg[..i] + head + msg[i + |head|..];
    ContainsInfix(msg[..i], head, msg[i + |head|..]);
  }

  function ParameterName(message: string): Option<string> {
    FindQuotedWord(message, "Parameter '", "' implicitly")
  }

  function PropertyName(message: string): Option<string> {
    FindQuotedWord(message, "Property '", "' does not exist on type")
  }

  // ---------------------------------------------------------------------
  // TS7006: \b<name>\b(?!\s*:)  ->  <name>: any   (every occurrence)
  // ---------------------------------------------------------------------

  /** `\s*:` matches at the start of `t`. */
  predicate ColonAhead(t: string)
    decreases |t|
  {
    t != [] && (t[0] == ':' || (IsSpace(t[0]) && ColonAhead(t[1..])))
  }

  /** `\b<name>\b(?!\s*:)` matches at the start of `t`; `afterWord` tells
      whether the character before `t` is a word character. */
  predicate BareNameAt(t: string, name: string, afterWord: bool) {
    !afterWord && name <= t && !(|name| < |t| && IsWord(t[|name|])) && !ColonAhead(t[|name|..])
  }

  /** `re.sub` of the implicit-any pattern over the rest `t` of a line. */
  function Annotate(t: string, name: string, afterWord: bool): string
    requires name != []
    decreases |t|
  {
    if t == [] then []
    else if BareNameAt(t, name, afterWord) then name + ": any" + Annotate(t[|name|..], name, true)
    else [t[0]] + Annotate(t[1..], name, IsWord(t[0]))
  }

  /** The TS7006 line fix: declines when the message names no parameter, and
      applies only when annotating the line changes it, leaving `<name>: any`. */
  function FixImplicitAnyLine(target: string, message: string): (r: Option<string>)
    ensures ParameterName(message).None? ==> r.None?
    ensures r.Some? <==> ParameterName(message).Some? && Annotate(target, ParameterName(message).value, false) != target
    ensures r.Some? ==> r.value == Annotate(target, ParameterName(message).value, false)
    ensures r.Some? ==> Contains(r.value, ParameterName(message).value + ": any")
  {
    match ParameterName(message)
    case None => None
    case Some(name) =>
      var updated := Annotate(target, name, false);
      AnnotateLeavesMark(target, name, false);
      if updated != target then Some(updated) else None
  }

  /** A changed line carries the annotation somewhere. */
  lemma {:induction false} AnnotateLeavesMark(t: string, name: string, afterWord: bool)
    requires name != []
    ensures Annotate(t, name, afterWord) != t ==> Contains(Annotate(t, name, afterWord), name + ": any")
    decreases |t|
  {
    if t != [] {
      if BareNameAt(t, name, afterWord) {
        var rest := Annotate(t[|name|..], name, true);
        ContainsInfix([], name + ": any", rest);
        assert [] + (name + ": any") + rest == name + ": any" + rest;
      } else {
        var rest := Annotate(t[1..], name, IsWord(t[0]));
        AnnotateLeavesMark(t[1..], name, IsWord(t[0]));
        assert ([t[0]] + rest)[1..] == rest;
        assert [t[0]] + rest != t ==> rest != t[1..];
      }
    }
  }

  /** Annotation starts with the same character as its input, and is empty
      exactly when its input is. */
  lemma AnnotateHead(u: string, name: string, afterWord: bool)
    requires name != []
    ensures (Annotate(u, name, afterWord) == []) == (u == [])
    ensures u != [] ==> Annotate(u, name, afterWord)[0] == u[0]
  {
  }

  /** A run of word characters after a word character is copied unchanged. */
  lemma {:induction false} WordRunCopied(u: string, rest: string, name: string)
    requires name != [] && AllWord(u)
    ensures Annotate(u + rest, name, true) == u + Annotate(rest, name, true)
    decreases |u|
  {
    if u != [] {
      var t := u + rest;
      assert t[0] == u[0] && t[1..] == u[1..] + rest;
      assert Annotate(t, name, true) == [u[0]] + Annotate(u[1..] + rest, name, true);
      WordRunCopied(u[1..], rest, name);
      assert [u[0]] + (u[1..] + Annotate(rest, name, true)) == u + Annotate(rest, name, true);
    } else {
      assert u + rest == rest;
    }
  }

  /** A word prefix of text annotated after a word character was there before. */
  lemma {:induction false} WordPrefixKept(u: string, w: string, name: string)
    requires name != [] && AllWord(w)
    ensures w <= Annotate(u, name, true) ==> w <= u
    decreases |u|
  {
    if w != [] && u != [] {
      var rest := Annotate(u[1..], name, IsWord(u[0]));
      assert Annotate(u, name, true) == [u[0]] + rest;
      PrefixOfCons(u[0], rest, w);
      PrefixOfCons(u[0], u[1..], w);
      assert u == [u[0]] + u[1..];
      if IsWord(u[0]) {
        WordPrefixKept(u[1..], w[1..], name);
      }
    }
  }

  /** A following `\s*:` survives annotation. */
  lemma {:induction false} ColonKept(u: string, name: string, afterWord: bool)
    requires name != [] && AllWord(name)
    ensures ColonAhead(u) ==> ColonAhead(Annotate(u, name, afterWord))
    decreases |u|
  {
    if u != [] && ColonAhead(u) {
      assert !IsWord(u[0]);
      assert !BareNameAt(u, name, afterWord);
      ColonKept(u[1..], name, false);
    }
  }

  /** `any` followed by a non-word character is not an occurrence of another name. */
  lemma AnyIsNotName(y: string, name: string)
    requires name != [] && AllWord(name) && name != "any"
    requires y == [] || !IsWord(y[0])
    ensures !BareNameAt("any" + y, name, false)
  {
    var t := "any" + y;
    if name <= t && |name| <= 3 {
      assert name == "any"[..|name|];
    }
    if |name| > 3 {
      PrefixAt(name, t, 3);
      assert |t| > 3 ==> t[3] == y[0];
    }
  }

  /** A character that starts no occurrence is copied and the scan moves on. */
  lemma CopyStep(t: string, name: string, afterWord: bool)
    requires name != [] && t != [] && !BareNameAt(t, name, afterWord)
    ensures Annotate(t, name, afterWord) == [t[0]] + Annotate(t[1..], name, IsWord(t[0]))
  {
  }

  /** The text `: any` the rewrite inserts is copied unchanged by a second run. */
  lemma InsertedTextStable(y: string, name: string)
    requires name != [] && AllWord(name) && name != "any"
    requires y == [] || !IsWord(y[0])
    ensures Annotate(": any" + y, name, true) == ": any" + Annotate(y, name, true)
  {
    var z := Annotate(y, name, true);
    ColonAnySplit(y);
    ColonAnySplit(z);
    assert IsWord(name[0]);
    SeparatorCopied("any" + y, name);
    AnyCopied(y, name);
  }

  /** `: any` followed by `y`, seen as the separator and the rest. */
  lemma ColonAnySplit(y: string)
    ensures ": any" + y == ": " + ("any" + y)
  { }

  /** The type `any` the rewrite inserts is not the parameter's name, so it is copied. */
  lemma AnyCopied(y: string, name: string)
    requires name != [] && AllWord(name) && name != "any"
    requires y == [] || !IsWord(y[0])
    ensures Annotate("any" + y, name, false) == "any" + Annotate(y, name, true)
  {
    var z := Annotate(y, name, true);
    AnyIsNotName(y, name);
    AnySplit(y);
    AnySplit(z);
    CopyStep("any" + y, name, false);
    WordRunCopied("ny", y, name);
  }

  /** `any` followed by `y`, seen as its first character and the rest. */
  lemma AnySplit(y: string)
    ensures ("any" + y)[0] == 'a' && ("any" + y)[1..] == "ny" + y
    ensures "any" + y == "a" + ("ny" + y)
  { }

  /** An occurrence already followed by a colon is left alone. */
  lemma NameThenColon(a: string, name: string)
    requires name != [] && AllWord(name)
    requires a != [] && a[0] == ':'
    ensures Annotate(name + a, name, false) == name + Annotate(a, name, true)
  {
    var o := name + a;
    assert o[|name|..] == a && o[1..] == name[1..] + a;
    assert ColonAhead(a);
    CopyStep(o, name, false);
    WordRunCopied(name[1..], a, name);
    assert [name[0]] + (name[1..] + Annotate(a, name, true)) == name + Annotate(a, name, true);
  }

  /** The annotated occurrence is not matched again: after `<name>: any` the
      lookahead sees the colon, and `any` itself is not the name. */
  lemma AnnotatedOccurrenceStable(y: string, name: string)
    requires name != [] && AllWord(name) && name != "any"
    requires y == [] || !IsWord(y[0])
    ensures Annotate(name + (": any" + y), name, false) == name + (": any" + Annotate(y, name, true))
  {
    var a := ": any" + y;
    var z := Annotate(y, name, true);
    NameThenColon(a, name);
    InsertedTextStable(y, name);
  }

  /** A match in the annotated text that starts at a copied character was a
      match of the original, so copying never creates one. */
  lemma CopiedCharStable(t: string, name: string, afterWord: bool)
    requires name != [] && AllWord(name)
    requires t != [] && !BareNameAt(t, name, afterWord)
    ensures !BareNameAt([t[0]] + Annotate(t[1..], name, IsWord(t[0])), name, afterWord)
  {
    var y := Annotate(t[1..], name, IsWord(t[0]));
    var o := [t[0]] + y;
    PrefixOfCons(t[0], y, name);
    PrefixOfCons(t[0], t[1..], name);
    assert t == [t[0]] + t[1..];
    if IsWord(t[0]) {
      WordPrefixKept(t[1..], name[1..], name);
    }
    if name <= t && IsWord(t[0]) {
      var t2 := t[|name|..];
      assert t[1..] == name[1..] + t2;
      WordRunCopied(name[1..], t2, name);
      var z := Annotate(t2, name, true);
      assert o == name + z;
      AnnotateHead(t2, name, true);
      ColonKept(t2, name, true);
      assert o[|name|..] == z;
    }
  }

  /** Annotating an annotated line changes nothing, unless the parameter is
      itself called `any` (see `AnyParameterReannotated`). */
  lemma {:induction false} AnnotateIdempotent(t: string, name: string, afterWord: bool)
    requires name != [] && AllWord(name) && name != "any"
    ensures Annotate(Annotate(t, name, afterWord), name, afterWord) == Annotate(t, name, afterWord)
    decreases |t|
  {
    if t != [] {
      if BareNameAt(t, name, afterWord) {
        var t' := t[|name|..];
        var y := Annotate(t', name, true);
        AnnotateIdempotent(t', name, true);
        AnnotateHead(t', name, true);
        AnnotatedOccurrenceStable(y, name);
        assert name + ": any" + y == name + (": any" + y);
      } else {
        var y := Annotate(t[1..], name, IsWord(t[0]));
        AnnotateIdempotent(t[1..], name, IsWord(t[0]));
        CopiedCharStable(t, name, afterWord);
        assert ([t[0]] + y)[1..] == y;
      }
    }
  }

  /** A parameter named `any` is annotated again on every run: `(any)` becomes
      `(any: any)` and then `(any: any: any)`. */
  lemma AnyParameterReannotated(name: string)
    requires name == "any"
    ensures Annotate("(" + (name + ")"), name, false) == "(" + (name + ": any)")
    ensures Annotate("(" + (name + ": any)"), name, false) == "(" + (name + ": any: any)")
  {
    BareNameAnnotated(name);
    CopyStep("(" + (name + ")"), name, false);
    assert ("(" + (name + ")"))[1..] == name + ")";
    AnyAnnotatedAgain(name);
    CopyStep("(" + (name + ": any)"), name, false);
    assert ("(" + (name + ": any)"))[1..] == name + ": any)";
  }

  /** A bare parameter name just before `)` is annotated. */
  lemma BareNameAnnotated(name: string)
    requires name != []
    ensures Annotate(name + ")", name, false) == name + ": any)"
  {
    var t := name + ")";
    assert t[|name|..] == ")" && t[|name|] == ')';
    assert BareNameAt(t, name, false);
    CopyStep(")", name, true);
    assert Annotate(")", name, true) == ")";
  }

  /** `any: any)` keeps the annotated name and annotates the type `any` once more. */
  lemma AnyAnnotatedAgain(name: string)
    requires name == "any"
    ensures Annotate(name + ": any)", name, false) == name + ": any: any)"
  {
    TypeNamedLikeParameter(name);
    assert name + ": any)" == name + (": " + (name + ")"));
    assert name + (": " + (name + ": any)")) == name + ": any: any)";
  }

  /** A parameter annotated with a type spelled like the parameter itself
      has that type annotated too. */
  lemma TypeNamedLikeParameter(name: string)
    requires name != [] && AllWord(name)
    ensures Annotate(name + (": " + (name + ")")), name, false) == name + (": " + (name + ": any)"))
  {
    NameThenColon(": " + (name + ")"), name);
    SeparatorCopied(name + ")", name);
    BareNameAnnotated(name);
  }

  /** The `: ` after an annotated name is copied, and the text after it is
      scanned as if it started a word. */
  lemma SeparatorCopied(x: string, name: string)
    requires name != [] && name[0] != ' '
    ensures Annotate(": " + x, name, true) == ": " + Annotate(x, name, false)
  {
    var t := ": " + x;
    CopyStep(t, name, true);
    assert t[1..] == " " + x && !IsWord(t[0]);
    CopyStep(" " + x, name, false);
    assert (" " + x)[1..] == x && !IsWord(' ');
  }

  // ---------------------------------------------------------------------
  // TS2339: first (\w+)\.(\w+)  ->  (\1 as any).\2
  // ---------------------------------------------------------------------

  /** `(\w+)\.(\w+)` matches at index `i`; the result is the index of the dot. */
  function AccessAt(s: string, i: nat): (b: Option<nat>)
    requires i <= |s|
    ensures b.Some? ==> i < b.value && b.value + 1 < |s| && s[b.value] == '.' && IsWord(s[b.value + 1])
    ensures b.Some? ==> AllWord(s[i..b.value])
  {
    if i < |s| && IsWord(s[i]) then
      var b := WordEnd(s, i);
      if b + 1 < |s| && s[b] == '.' && IsWord(s[b + 1]) then Some(b) else None
    else None
  }

  /** The leftmost match at or after `from`: its start and the index of its dot. */
  function FirstAccess(s: string, from: nat): (r: Option<(nat, nat)>)
    requires from <= |s|
    ensures r.Some? ==> from <= r.value.0 < |s| && AccessAt(s, r.value.0) == Some(r.value.1)
    ensures forall i :: from <= i < |s| && (r.None? || i < r.value.0) ==> AccessAt(s, i).None?
    decreases |s| - from
  {
    if from == |s| then None
    else match AccessAt(s, from)
      case Some(b) => Some((from, b))
      case None => FirstAccess(s, from + 1)
  }

  /** `re.sub(r'(\w+)\.(\w+)', r'(\1 as any).\2', s, count=1)`. */
  function WrapFirstAccess(s: string): (r: Option<string>)
    ensures r.Some? ==> Contains(r.value, "as any")
    ensures r.Some? ==> (exists a, b :: FirstAccess(s, 0) == Some((a, b)) &&
                          r.value == s[..a] + "(" + s[a..b] + " as any)" + s[b..])
    ensures r.None? <==> FirstAccess(s, 0).None?
  {
    match FirstAccess(s, 0)
    case None => None
    case Some((a, b)) =>
      var c := WordEnd(s, b + 1);
      var out := s[..a] + "(" + s[a..b] + " as any)." + s[b + 1..c] + s[c..];
      WrapSplice(s[..a] + "(" + s[a..b], s, b, c);
      Some(out)
  }

  /** The substitution `(\1 as any).\2` puts back the dot and the property it
      matched, so it reads as `as any)` inserted before the dot. */
  lemma WrapSplice(x: string, s: string, b: nat, c: nat)
    requires b < c <= |s| && s[b] == '.'
    ensures var out := x + " as any)." + s[b + 1..c] + s[c..];
            out == x + " as any)" + s[b..] && Contains(out, "as any")
  {
    var tail := s[b..];
    assert tail == [s[b]] + s[b + 1..c] + s[c..] by {
      assert s[b..] == [s[b]] + s[b + 1..];
      assert s[b + 1..] == s[b + 1..c] + s[c..];
    }
    AsAnySplit();
    ContainsInfix(x + " ", "as any", ")" + tail);
    assert x + " " + "as any" + (")" + tail) == x + " as any)" + tail;
  }

  /** The literal pieces of the substitution. */
  lemma AsAnySplit()
    ensures " as any)." == " as any)" + "." && " as any)" == " " + "as any" + ")"
  { }

  /** The TS2339 line fix: needs a dot, no `as any` yet, and a message naming
      the missing property; wraps the first `a.b` only. */
  function FixPropertyLine(target: string, message: string): (r: Option<string>)
    ensures r.Some? <==> Contains(target, ".") && !Contains(target, "as any") && PropertyName(message).Some?
                         && WrapFirstAccess(target).Some? && WrapFirstAccess(target).value != target
    ensures r.Some? ==> Some(r.value) == WrapFirstAccess(target)
    ensures r.Some? ==> Contains(r.value, "as any")
  {
    if Contains(target, ".") && !Contains(target, "as any") then
      if PropertyName(message).None? then None
      else match WrapFirstAccess(target)
        case None => None
        case Some(updated) => if updated != target then Some(updated) else None
    else None
  }

  // ---------------------------------------------------------------------
  // TS2345: \.apply\(([^,)]+),\s*([^)]+)\)  ->  .apply(\1, \2 as any)
  // ---------------------------------------------------------------------

  /** First index at or after `i` holding `,` or `)` (the end of `[^,)]+`). */
  function ArgEnd(s: string, i: nat): (j: nat)
    requires i <= |s|
    ensures i <= j <= |s| && (j < |s| ==> s[j] == ',' || s[j] == ')')
    ensures forall k :: i <= k < j ==> s[k] != ',' && s[k] != ')'
    decreases |s| - i
  {
    if i == |s| || s[i] == ',' || s[i] == ')' then i else ArgEnd(s, i + 1)
  }

  /** First index at or after `i` holding `)` (the end of `[^)]+`). */
  function CloseParen(s: string, i: nat): (j: nat)
    requires i <= |s|
    ensures i <= j <= |s| && (j < |s| ==> s[j] == ')')
    ensures forall k :: i <= k < j ==> s[k] != ')'
    decreases |s| - i
  {
    if i == |s| || s[i] == ')' then i else CloseParen(s, i + 1)
  }

  /** First index in `[i, j)` that is not whitespace (the end of greedy `\s*`). */
  function SpaceEnd(s: string, i: nat, j: nat): (k: nat)
    requires i <= j <= |s|
    ensures i <= k <= j
    decreases j - i
  {
    if i < j && IsSpace(s[i]) then SpaceEnd(s, i + 1, j) else i
  }

  /** The match of the `.apply(...)` pattern at the start of `t`: the
      replacement text and the length of the matched text. When the second
      argument is all whitespace, `\s*` gives back one character to `[^)]+`. */
  function ApplyMatch(t: string): (m: Option<(string, nat)>)
    ensures m.Some? ==> 0 < m.value.1 <= |t| && ".apply(" <= t
    ensures m.Some? ==> Contains(m.value.0, "as any")
  {
    if ".apply(" <= t then
      var e1 := ArgEnd(t, 7);
      if 7 < e1 < |t| && t[e1] == ',' then
        var close := CloseParen(t, e1 + 1);
        if e1 + 1 < close < |t| then
          var ws := SpaceEnd(t, e1 + 1, close);
          var arg2 := if ws < close then t[ws..close] else t[close - 1..close];
          var out := ".apply(" + t[7..e1] + ", " + arg2 + " as any)";
          ContainsInfix(".apply(" + t[7..e1] + ", " + arg2 + " ", "as any", ")");
          assert ".apply(" + t[7..e1] + ", " + arg2 + " " + "as any" + ")" == out;
          Some((out, close + 1))
        else None
      else None
    else None
  }

  /** `re.sub` of the `.apply(...)` pattern: every match, left to right. */
  function RewriteApply(s: string): string
    decreases |s|
  {
    if s == [] then []
    else match ApplyMatch(s)
      case Some((out, len)) => out + RewriteApply(s[len..])
      case None => [s[0]] + RewriteApply(s[1..])
  }

  /** Whenever the rewrite changes a line, the result carries `as any`. */
  lemma {:induction false} CastLeavesMark(s: string)
    ensures RewriteApply(s) != s ==> Contains(RewriteApply(s), "as any")
    decreases |s|
  {
    if s != [] {
      match ApplyMatch(s)
      case Some((out, len)) =>
        var rest := RewriteApply(s[len..]);
        ContainsPrefixPart(out, rest, "as any");
      case None =>
        var rest := RewriteApply(s[1..]);
        CastLeavesMark(s[1..]);
        assert ([s[0]] + rest)[1..] == rest;
        assert [s[0]] + rest != s ==> rest != s[1..];
    }
  }

  /** An occurrence inside the front part is an occurrence of the whole. */
  lemma {:induction false} ContainsPrefixPart(a: string, x: string, p: string)
    requires Contains(a, p)
    ensures Contains(a + x, p)
    decreases |a|
  {
    if !(p <= a) {
      assert (a + x)[1..] == a[1..] + x;
      ContainsPrefixPart(a[1..], x, p);
    }
  }

  /** A line without `.apply(` is never changed. */
  lemma {:induction false} NoApplyNoChange(s: string)
    ensures !Contains(s, ".apply(") ==> RewriteApply(s) == s
    decreases |s|
  {
    if s != [] {
      NoApplyNoChange(s[1..]);
    }
  }

  /** The TS2345 line fix: declines when `as any` is present or nothing
      matches; otherwise every `.apply(x, y)` gets `y as any`. */
  function FixCastLine(target: string): (r: Option<string>)
    ensures Contains(target, "as any") ==> r.None?
    ensures !Contains(target, ".apply(") ==> r.None?
    ensures r.Some? <==> !Contains(target, "as any") && RewriteApply(target) != target
    ensures r.Some? ==> r.value == RewriteApply(target)
    ensures r.Some? ==> Contains(r.value, "as any")
  {
    if Contains(target, "as any") then None
    else
      var updated := RewriteApply(target);
      CastLeavesMark(target);
      NoApplyNoChange(target);
      if updated != target then Some(updated) else None
  }

  // ---------------------------------------------------------------------
  // Reading, editing and writing back one line of a file
  // ---------------------------------------------------------------------

  /** The index `lines[line - 1]` reaches once `line > len(lines)` has been
      ruled out: line 0 is Python's `lines[-1]`, which fails (and is caught)
      on an empty file. */
  function LineIndex(line: nat, count: nat): (r: Option<nat>)
    ensures r.Some? ==> r.value < count
    ensures line > count ==> r.None?
    ensures 1 <= line <= count ==> r == Some(line - 1)
    ensures line == 0 ==> r == (if count > 0 then Some(count - 1) else None)
  {
    if line > count then None
    else if line >= 1 then Some(line - 1)
    else if count > 0 then Some(count - 1)
    else None
  }

  /** Read the file, rewrite the reported line, write the whole file back.
      Declines without writing when the line is out of range or the rewrite
      declines; on success only the reported line differs. */
  function EditLine(lines: seq<string>, line: nat, rewrite: string -> Option<string>): (r: Option<seq<string>>)
    ensures line > |lines| ==> r.None?
    ensures r.Some? <==> LineIndex(line, |lines|).Some? && rewrite(lines[LineIndex(line, |lines|).value]).Some?
    ensures r.Some? ==> |r.value| == |lines|
    ensures r.Some? ==> var i := LineIndex(line, |lines|).value;
                        rewrite(lines[i]) == Some(r.value[i]) &&
                        forall j :: 0 <= j < |lines| && j != i ==> r.value[j] == lines[j]
  {
    match LineIndex(line, |lines|)
    case None => None
    case Some(i) =>
      match rewrite(lines[i])
      case None => None
      case Some(updated) => Some(lines[i := updated])
  }
}
