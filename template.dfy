/** `sub(template, obj)`: every match of the global regular expression
    `{{\s*(\w+)\s*}}` is replaced by `obj[name] || ""`. Matches are found
    from left to right, do not overlap, and replacement text is never
    scanned again. */
module Template {
  import opened Options
  import opened Chars

  /** A placeholder found at the start of a text: its name and the length
      of the whole `{{ name }}` match. */
  datatype Hit = Hit(name: string, len: nat)

  /** The end of the run of `\s` characters of `s` that starts at `i`. */
  function SpaceEnd(s: string, i: nat): (j: nat)
    requires i <= |s|
    ensures i <= j <= |s|
    decreases |s| - i
  {
    if i < |s| && IsSpace(s[i]) then SpaceEnd(s, i + 1) else i
  }

  /** The end of the run of `\w` characters of `s` that starts at `i`. */
  function WordEnd(s: string, i: nat): (j: nat)
    requires i <= |s|
    ensures i <= j <= |s|
    decreases |s| - i
  {
    if i < |s| && IsWordChar(s[i]) then WordEnd(s, i + 1) else i
  }

  /** The regular expression matched at the start of `s`. Greedy matching
      needs no backtracking here: `\s`, `\w` and `}` are disjoint. */
  function MatchAt(s: string): (r: Option<Hit>)
    ensures r.Some? ==> 5 <= r.value.len <= |s|
  {
    if |s| >= 2 && s[0] == '{' && s[1] == '{' then
      var a := SpaceEnd(s, 2);
      var b := WordEnd(s, a);
      var c := SpaceEnd(s, b);
      if a < b && c + 2 <= |s| && s[c] == '}' && s[c + 1] == '}'
      then Some(Hit(s[a..b], c + 2))
      else None
    else None
  }

  /** `obj[name] || ""`. Every value the background page passes is a
      string, whose only falsy value is the empty string itself. */
  function Lookup(ctx: map<string, string>, name: string): string {
    if name in ctx then ctx[name] else ""
  }

  /** `sub(template, obj)`. */
  function Sub(t: string, ctx: map<string, string>): string
    decreases |t|
  {
    if t == [] then []
    else
      match MatchAt(t)
      case Some(h) => Lookup(ctx, h.name) + Sub(t[h.len..], ctx)
      case None => [t[0]] + Sub(t[1..], ctx)
  }

  /** A template viewed as literal text and `{{ name }}` placeholders, with
      the white space written around each name. */
  datatype Piece = Text(text: string) | Hole(before: string, name: string, after: string)

  /** Every `{` of `s` is followed, inside `s`, by a character other than
      `{`: no placeholder can start inside the text. */
  predicate OpenFree(s: string) {
    forall k :: 0 <= k < |s| && s[k] == '{' ==> k + 1 < |s| && s[k + 1] != '{'
  }

  predicate WellFormed(p: Piece) {
    match p
    case Text(s) => OpenFree(s)
    case Hole(before, name, after) => AllSpace(before) && name != [] && AllWord(name) && AllSpace(after)
  }

  /** The template text of a piece sequence. */
  function Render(ps: seq<Piece>): string {
    if ps == [] then []
    else
      match ps[0]
      case Text(s) => s + Render(ps[1..])
      case Hole(before, name, after) => "{{" + before + name + after + "}}" + Render(ps[1..])
  }

  /** The text a substitution is meant to produce: literal text kept, each
      placeholder replaced by its value. */
  function Fill(ps: seq<Piece>, ctx: map<string, string>): string {
    if ps == [] then []
    else
      match ps[0]
      case Text(s) => s + Fill(ps[1..], ctx)
      case Hole(_, name, _) => Lookup(ctx, name) + Fill(ps[1..], ctx)
  }

  /** Text in which no placeholder can start is copied unchanged. */
  lemma SubText(s: string, rest: string, ctx: map<string, string>)
    requires OpenFree(s)
    ensures Sub(s + rest, ctx) == s + Sub(rest, ctx)
  {
    OpenFreeNoMatch(s, rest);
    SubNoMatch(s, rest, ctx);
  }

  /** Sequence algebra for one step of `SubNoMatch`. */
  lemma ConsTail(x: string, y: string, z: string, s: string)
    requires s != [] && x == [s[0]] + y && y == s[1..] + z
    ensures x == s + z
  {
    assert [s[0]] + s[1..] == s;
  }

  /** A run of spaces is measured exactly when what follows is no space. */
  lemma {:induction false} SpaceEndOf(s: string, i: nat, j: nat)
    requires i <= j <= |s|
    requires forall k :: i <= k < j ==> IsSpace(s[k])
    requires j == |s| || !IsSpace(s[j])
    ensures SpaceEnd(s, i) == j
    decreases j - i
  {
    if i < j {
      SpaceEndOf(s, i + 1, j);
    }
  }

  /** A run of word characters is measured exactly when what follows is no
      word character. */
  lemma {:induction false} WordEndOf(s: string, i: nat, j: nat)
    requires i <= j <= |s|
    requires forall k :: i <= k < j ==> IsWordChar(s[k])
    requires j == |s| || !IsWordChar(s[j])
    ensures WordEnd(s, i) == j
    decreases j - i
  {
    if i < j {
      WordEndOf(s, i + 1, j);
    }
  }

  /** A placeholder followed by `rest`, grouped the way the match reads it. */
  function Placed(before: string, name: string, after: string, rest: string): string {
    "{{" + (before + (name + (after + ("}}" + rest))))
  }

  /** The white space before the name ends where the name starts. */
  lemma PlacedBefore(before: string, name: string, after: string, rest: string)
    requires WellFormed(Hole(before, name, after))
    ensures var s := Placed(before, name, after, rest);
      |s| >= 2 && s[0] == '{' && s[1] == '{' && SpaceEnd(s, 2) == 2 + |before|
  {
    var s := Placed(before, name, after, rest);
    var a := 2 + |before|;
    forall k | 2 <= k < a
      ensures IsSpace(s[k])
    {
      assert s[k] == before[k - 2];
    }
    assert s[a] == name[0];
    SpaceEndOf(s, 2, a);
  }

  /** The name is the run of word characters that follows. */
  lemma PlacedName(before: string, name: string, after: string, rest: string)
    requires WellFormed(Hole(before, name, after))
    ensures var s := Placed(before, name, after, rest);
      var a := 2 + |before|;
      var b := a + |name|;
      b <= |s| && WordEnd(s, a) == b && s[a..b] == name
  {
    var s := Placed(before, name, after, rest);
    var a := 2 + |before|;
    var b := a + |name|;
    forall k | a <= k < b
      ensures IsWordChar(s[k])
    {
      assert s[k] == name[k - a];
    }
    assert s[b] == if after == [] then '}' else after[0];
    WordEndOf(s, a, b);
    assert s[a..b] == name;
  }

  /** The white space after the name ends at the closing `}}`. */
  lemma PlacedAfter(before: string, name: string, after: string, rest: string)
    requires WellFormed(Hole(before, name, after))
    ensures var s := Placed(before, name, after, rest);
      var b := 2 + |before| + |name|;
      var c := b + |after|;
      c + 2 <= |s| && SpaceEnd(s, b) == c && s[c] == '}' && s[c + 1] == '}'
  {
    var s := Placed(before, name, after, rest);
    var b := 2 + |before| + |name|;
    var c := b + |after|;
    forall k | b <= k < c
      ensures IsSpace(s[k])
    {
      assert s[k] == after[k - b];
    }
    assert s[c] == '}' && s[c + 1] == '}';
    SpaceEndOf(s, b, c);
  }

  /** A well-formed placeholder is matched as a whole, with its name. */
  lemma HoleMatchAt(before: string, name: string, after: string, rest: string)
    requires WellFormed(Hole(before, name, after))
    ensures MatchAt(Placed(before, name, after, rest)) ==
      Some(Hit(name, |before| + |name| + |after| + 4))
  {
    PlacedBefore(before, name, after, rest);
    PlacedName(before, name, after, rest);
    PlacedAfter(before, name, after, rest);
  }

  /** Substituting into a rendered template replaces each placeholder by
      its value and alters no other text; values are not scanned again. */
  lemma SubRender(ps: seq<Piece>, ctx: map<string, string>)
    requires forall k :: 0 <= k < |ps| ==> WellFormed(ps[k])
    ensures Sub(Render(ps), ctx) == Fill(ps, ctx)
  {
    WellFormedMatchesOnlyHoles(ps);
    SubRenderMatched(ps, ctx);
  }

  /** The run `SpaceEnd` measures is all `\s`, and stops before a non-space. */
  lemma {:induction false} SpaceEndRun(s: string, i: nat)
    requires i <= |s|
    ensures forall k :: i <= k < SpaceEnd(s, i) ==> IsSpace(s[k])
    ensures SpaceEnd(s, i) == |s| || !IsSpace(s[SpaceEnd(s, i)])
    decreases |s| - i
  {
    if i < |s| && IsSpace(s[i]) {
      SpaceEndRun(s, i + 1);
    }
  }

  /** The run `WordEnd` measures is all `\w`, and stops before a non-word
      character. */
  lemma {:induction false} WordEndRun(s: string, i: nat)
    requires i <= |s|
    ensures forall k :: i <= k < WordEnd(s, i) ==> IsWordChar(s[k])
    ensures WordEnd(s, i) == |s| || !IsWordChar(s[WordEnd(s, i)])
    decreases |s| - i
  {
    if i < |s| && IsWordChar(s[i]) {
      WordEndRun(s, i + 1);
    }
  }

  lemma AllSpaceSlice(s: string, i: nat, j: nat)
    requires i <= j <= |s| && forall k :: i <= k < j ==> IsSpace(s[k])
    ensures AllSpace(s[i..j])
  {
    forall k | 0 <= k < j - i
      ensures IsSpace(s[i..j][k])
    {
      assert s[i..j][k] == s[i + k];
    }
  }

  lemma AllWordSlice(s: string, i: nat, j: nat)
    requires i <= j <= |s| && forall k :: i <= k < j ==> IsWordChar(s[k])
    ensures AllWord(s[i..j])
  {
    forall k | 0 <= k < j - i
      ensures IsWordChar(s[i..j][k])
    {
      assert s[i..j][k] == s[i + k];
    }
  }

  /** A text cut at `a`, `b` and `c` into `{{`, white space, a word, white
      space and `}}` starts with that placeholder. */
  lemma PlaceholderOf(s: string, a: nat, b: nat, c: nat)
    requires 2 <= a < b <= c && c + 2 <= |s|
    requires s[0] == '{' && s[1] == '{' && s[c] == '}' && s[c + 1] == '}'
    requires AllSpace(s[2..a]) && AllWord(s[a..b]) && AllSpace(s[b..c])
    ensures WellFormed(Hole(s[2..a], s[a..b], s[b..c]))
    ensures s[..c + 2] == "{{" + s[2..a] + s[a..b] + s[b..c] + "}}"
  {
    assert s[..2] == "{{" && s[c..c + 2] == "}}";
    assert s[..c + 2] == s[..2] + s[2..a] + s[a..b] + s[b..c] + s[c..c + 2];
  }

  /** Every match is a placeholder: `{{`, white space, a non-empty run of
      `\w` that is the name, white space and `}}`. With `HoleMatchAt`,
      the regular expression matches exactly the well-formed placeholders. */
  lemma MatchAtSound(s: string)
    ensures MatchAt(s).Some? ==>
      var h := MatchAt(s).value;
      exists before, after :: WellFormed(Hole(before, h.name, after)) &&
        s[..h.len] == "{{" + before + h.name + after + "}}"
  {
    if MatchAt(s).Some? {
      var a := SpaceEnd(s, 2);
      var b := WordEnd(s, a);
      var c := SpaceEnd(s, b);
      SpaceEndRun(s, 2);
      WordEndRun(s, a);
      SpaceEndRun(s, b);
      AllSpaceSlice(s, 2, a);
      AllWordSlice(s, a, b);
      AllSpaceSlice(s, b, c);
      PlaceholderOf(s, a, b, c);
    }
  }

  /** Where no placeholder matches, the first character is copied and the
      scan moves on by one. */
  lemma SubSkips(t: string, ctx: map<string, string>)
    requires t != [] && MatchAt(t).None?
    ensures Sub(t, ctx) == [t[0]] + Sub(t[1..], ctx)
  {
  }

  /** Text at none of whose positions the regular expression matches is
      copied unchanged, whatever `{` it holds: a `{{` that starts no
      well-formed placeholder is left as it is. */
  lemma {:induction false} SubNoMatch(s: string, rest: string, ctx: map<string, string>)
    requires forall k :: 0 <= k < |s| ==> MatchAt((s + rest)[k..]).None?
    ensures Sub(s + rest, ctx) == s + Sub(rest, ctx)
    decreases |s|
  {
    if s == [] {
      assert s + rest == rest;
    } else {
      var t := s + rest;
      assert t[0..] == t;
      SubSkips(t, ctx);
      assert t[1..] == s[1..] + rest;
      forall k | 0 <= k < |s| - 1
        ensures MatchAt((s[1..] + rest)[k..]).None?
      {
        assert (s[1..] + rest)[k..] == t[k + 1..];
      }
      SubNoMatch(s[1..], rest, ctx);
      ConsTail(Sub(t, ctx), Sub(t[1..], ctx), Sub(rest, ctx), s);
    }
  }

  /** A text at none of whose positions a placeholder matches is left as
      it is. */
  lemma SubPlain(s: string, ctx: map<string, string>)
    requires forall k :: 0 <= k < |s| ==> MatchAt(s[k..]).None?
    ensures Sub(s, ctx) == s
  {
    assert s + [] == s;
    SubNoMatch(s, [], ctx);
  }

  /** No match of the regular expression starts inside `s` when `rest`
      follows it. */
  predicate NoMatchIn(s: string, rest: string) {
    forall k :: 0 <= k < |s| ==> MatchAt((s + rest)[k..]).None?
  }

  /** The matches of the regular expression in `Render(ps)` are exactly the
      placeholders of `ps`: every placeholder is well formed, and no match
      starts inside literal text, given the text that follows it. */
  predicate MatchesOnlyHoles(ps: seq<Piece>)
    decreases |ps|
  {
    ps != [] ==>
      (match ps[0]
       case Text(s) => NoMatchIn(s, Render(ps[1..]))
       case Hole(_, _, _) => WellFormed(ps[0])) &&
      MatchesOnlyHoles(ps[1..])
  }

  /** Substituting into a template replaces each placeholder the regular
      expression finds by its value and keeps all other text, including a
      `{{` that starts no placeholder; values are not scanned again. */
  lemma {:induction false} SubRenderMatched(ps: seq<Piece>, ctx: map<string, string>)
    requires MatchesOnlyHoles(ps)
    ensures Sub(Render(ps), ctx) == Fill(ps, ctx)
    decreases |ps|
  {
    if ps != [] {
      SubRenderMatched(ps[1..], ctx);
      match ps[0]
      case Text(s) =>
        SubNoMatch(s, Render(ps[1..]), ctx);
      case Hole(before, name, after) =>
        var r := Render(ps[1..]);
        var s := Placed(before, name, after, r);
        assert Render(ps) == s;
        HoleMatchAt(before, name, after, r);
        assert s[|before| + |name| + |after| + 4..] == r;
    }
  }

  /** In text where every `{` is followed by another character, no match
      can start, whatever follows. */
  lemma OpenFreeNoMatch(s: string, rest: string)
    requires OpenFree(s)
    ensures NoMatchIn(s, rest)
  {
    forall k | 0 <= k < |s|
      ensures MatchAt((s + rest)[k..]).None?
    {
      var t := (s + rest)[k..];
      assert t[0] == s[k];
      if s[k] == '{' {
        assert t[1] == s[k + 1];
      }
    }
  }

  /** A template of well-formed pieces has its placeholders as its only
      matches. */
  lemma {:induction false} WellFormedMatchesOnlyHoles(ps: seq<Piece>)
    requires forall k :: 0 <= k < |ps| ==> WellFormed(ps[k])
    ensures MatchesOnlyHoles(ps)
    decreases |ps|
  {
    if ps != [] {
      assert WellFormed(ps[0]);
      WellFormedMatchesOnlyHoles(ps[1..]);
      if ps[0].Text? {
        OpenFreeNoMatch(ps[0].text, Render(ps[1..]));
      }
    }
  }

  /** `{{}}` has no name, so the regular expression never matches in it
      and `sub` leaves it as it is. */
  lemma SubEmptyName(ctx: map<string, string>)
    ensures Sub("{{}}", ctx) == "{{}}"
  {
    var s := "{{}}";
    SpaceEndOf(s, 2, 2);
    WordEndOf(s, 2, 2);
    assert MatchAt(s[0..]).None?;
    forall k | 1 <= k < |s|
      ensures MatchAt(s[k..]).None?
    {
      assert s[k..][1..] == s[k + 1..];
    }
    SubPlain(s, ctx);
  }

  /** `{{ a-b }}`: `-` is no `\w` character, so no placeholder matches and
      `sub` leaves the text as it is. */
  lemma SubBadName(ctx: map<string, string>)
    ensures Sub("{{ a-b }}", ctx) == "{{ a-b }}"
  {
    var s := "{{ a-b }}";
    SpaceEndOf(s, 2, 3);
    WordEndOf(s, 3, 4);
    SpaceEndOf(s, 4, 4);
    assert MatchAt(s[0..]).None?;
    forall k | 1 <= k < |s|
      ensures MatchAt(s[k..]).None?
    {
      assert s[k..][1..] == s[k + 1..];
    }
    SubPlain(s, ctx);
  }

  /** Where a placeholder matches, its value is emitted and the scan
      resumes after the match. */
  lemma SubReplaces(t: string, ctx: map<string, string>)
    requires t != [] && MatchAt(t).Some?
    ensures Sub(t, ctx) == Lookup(ctx, MatchAt(t).value.name) + Sub(t[MatchAt(t).value.len..], ctx)
  {
  }

  lemma NoMatchAtTripleBrace()
    ensures MatchAt("{{{x}}}") == None
  {
    SpaceEndOf("{{{x}}}", 2, 2);
    WordEndOf("{{{x}}}", 2, 2);
  }

  lemma MatchAtDoubleBrace()
    ensures MatchAt("{{x}}}") == Some(Hit("x", 5))
  {
    var t := "{{x}}}";
    SpaceEndOf(t, 2, 2);
    WordEndOf(t, 2, 3);
    SpaceEndOf(t, 3, 3);
    assert t[2..3] == "x";
  }

  /** `{{{x}}}`: no match starts at the first `{`, so it is copied; the
      match `{{x}}` starts at the second one, and the last `}` is copied. */
  lemma SubTripleBrace()
    ensures Sub("{{{x}}}", map["x" := "V"]) == "{V}"
  {
    var s := "{{{x}}}";
    var ctx := map["x" := "V"];
    NoMatchAtTripleBrace();
    SubSkips(s, ctx);
    var t := s[1..];
    assert t == "{{x}}}";
    MatchAtDoubleBrace();
    SubReplaces(t, ctx);
    assert t[5..] == "}";
    assert MatchAt("}") == None;
    SubSkips("}", ctx);
    assert "}"[1..] == [];
  }
}
