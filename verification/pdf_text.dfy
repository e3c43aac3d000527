/**
 * Text logic of the PDF ingester: `clean_content`, which collapses whitespace,
 * strips control characters and trims, and `determine_assignment_type`, a
 * priority-ordered, case-insensitive keyword classifier on the file name.
 */
module PdfText {
  import opened Wrappers

  /** Whitespace: the characters for which Python's `str.isspace` holds (what `\s` and `strip()` match). */
  predicate IsSpace(c: char)
  {
    || c == ' ' || '\t' <= c <= '\r' || '\U{1C}' <= c <= '\U{1F}'
    || c == '\U{85}' || c == '\U{A0}' || c == '\U{1680}' || '\U{2000}' <= c <= '\U{200A}'
    || c == '\U{2028}' || c == '\U{2029}' || c == '\U{202F}' || c == '\U{205F}' || c == '\U{3000}'
  }

  /** The class `[\x00-\x1F\x7F-\x9F]`. */
  predicate IsControl(c: char)
  {
    c <= '\U{1F}' || '\U{7F}' <= c <= '\U{9F}'
  }

  /** No character of `s` is a control character. */
  predicate NoControl(s: string)
  {
    forall i :: 0 <= i < |s| ==> !IsControl(s[i])
  }

  /** The only whitespace in `s` is the plain space. */
  predicate SpacesArePlain(s: string)
  {
    forall i :: 0 <= i < |s| && IsSpace(s[i]) ==> s[i] == ' '
  }

  /** `s` neither starts nor ends with whitespace. */
  predicate Trimmed(s: string)
  {
    s == [] || (!IsSpace(s[0]) && !IsSpace(s[|s| - 1]))
  }

  /** No two whitespace characters stand next to each other in `s`. */
  predicate SingleSpaced(s: string)
  {
    forall i :: 0 <= i < |s| - 1 ==> !(IsSpace(s[i]) && IsSpace(s[i + 1]))
  }

  /** Every control character of `s` is whitespace, so stripping control characters comes too late to matter. */
  predicate NoStrayControl(s: string)
  {
    forall i :: 0 <= i < |s| && IsControl(s[i]) ==> IsSpace(s[i])
  }

  /** `s` without its leading whitespace. */
  function TrimStart(s: string): (r: string)
    ensures |r| <= |s| && r == s[|s| - |r|..]
    ensures r == [] || !IsSpace(r[0])
    decreases |s|
  {
    if s != [] && IsSpace(s[0]) then TrimStart(s[1..]) else s
  }

  /** `s` without its trailing whitespace. */
  function TrimEnd(s: string): (r: string)
    ensures |r| <= |s| && r == s[..|r|]
    ensures r == [] || !IsSpace(r[|r| - 1])
    decreases |s|
  {
    if s != [] && IsSpace(s[|s| - 1]) then TrimEnd(s[..|s| - 1]) else s
  }

  /** `s.strip()`: a trimmed slice of `s`. */
  function Strip(s: string): (r: string)
    ensures Trimmed(r)
  {
    var t := TrimStart(s);
    var r := TrimEnd(t);
    assert r != [] ==> r[0] == t[0];
    r
  }

  /** `strip()` keeps the absence of control characters, of non-space whitespace and of doubled whitespace. */
  lemma StripKeeps(s: string)
    ensures NoControl(s) ==> NoControl(Strip(s))
    ensures SpacesArePlain(s) ==> SpacesArePlain(Strip(s))
    ensures SingleSpaced(s) ==> SingleSpaced(Strip(s))
  {
    var t := TrimStart(s);
    SuffixKeeps(s, |s| - |t|);
    PrefixKeeps(t, |TrimEnd(t)|);
  }

  /** A suffix keeps every property that forbids some characters or some neighbours. */
  lemma SuffixKeeps(s: string, k: nat)
    requires k <= |s|
    ensures NoControl(s) ==> NoControl(s[k..])
    ensures SpacesArePlain(s) ==> SpacesArePlain(s[k..])
    ensures SingleSpaced(s) ==> SingleSpaced(s[k..])
    ensures NoStrayControl(s) ==> NoStrayControl(s[k..])
  {
    var t := s[k..];
    assert forall i :: 0 <= i < |t| ==> t[i] == s[k + i];
  }

  /** A prefix keeps the same properties. */
  lemma PrefixKeeps(s: string, n: nat)
    requires n <= |s|
    ensures NoControl(s) ==> NoControl(s[..n])
    ensures SpacesArePlain(s) ==> SpacesArePlain(s[..n])
    ensures SingleSpaced(s) ==> SingleSpaced(s[..n])
  {
    var t := s[..n];
    assert forall i :: 0 <= i < |t| ==> t[i] == s[i];
  }

  /** `re.sub(r'\s+', ' ', s)`: every maximal run of whitespace becomes one space. */
  function CollapseSpaces(s: string): (r: string)
    ensures r == [] <==> s == []
    ensures s != [] ==> (IsSpace(r[0]) <==> IsSpace(s[0]))
    decreases |s|
  {
    if s == [] then []
    else if IsSpace(s[0]) then [' '] + CollapseSpaces(TrimStart(s[1..]))
    else [s[0]] + CollapseSpaces(s[1..])
  }

  /** After the collapse the only whitespace is single plain spaces, and only stray control characters remain. */
  lemma {:induction false} CollapseKeeps(s: string)
    ensures SpacesArePlain(CollapseSpaces(s))
    ensures SingleSpaced(CollapseSpaces(s))
    ensures NoStrayControl(s) ==> NoControl(CollapseSpaces(s))
    decreases |s|
  {
    if s != [] {
      if IsSpace(s[0]) {
        var t := TrimStart(s[1..]);
        var rest := CollapseSpaces(t);
        SuffixKeeps(s, |s| - |t|);
        CollapseKeeps(t);
        ConsPlain(' ', rest);
        ConsSingle(' ', rest);
        if NoStrayControl(s) {
          ConsNoControl(' ', rest);
        }
      } else {
        var rest := CollapseSpaces(s[1..]);
        SuffixKeeps(s, 1);
        CollapseKeeps(s[1..]);
        ConsPlain(s[0], rest);
        ConsSingle(s[0], rest);
        if NoStrayControl(s) {
          ConsNoControl(s[0], rest);
        }
      }
    }
  }

  /** Putting one character in front keeps plain spacing when the character is not other whitespace. */
  lemma ConsPlain(c: char, rest: string)
    requires SpacesArePlain(rest) && (IsSpace(c) ==> c == ' ')
    ensures SpacesArePlain([c] + rest)
  {
    var s := [c] + rest;
    assert forall i :: 1 <= i < |s| ==> s[i] == rest[i - 1];
  }

  /** Putting one character in front keeps single spacing unless two whitespace characters meet. */
  lemma ConsSingle(c: char, rest: string)
    requires SingleSpaced(rest) && (rest == [] || !IsSpace(c) || !IsSpace(rest[0]))
    ensures SingleSpaced([c] + rest)
  {
    var s := [c] + rest;
    assert forall i :: 1 <= i < |s| ==> s[i] == rest[i - 1];
  }

  /** Putting a non-control character in front keeps a text free of control characters. */
  lemma ConsNoControl(c: char, rest: string)
    requires NoControl(rest) && !IsControl(c)
    ensures NoControl([c] + rest)
  {
    var s := [c] + rest;
    assert forall i :: 1 <= i < |s| ==> s[i] == rest[i - 1];
  }

  /** `re.sub(r'[\x00-\x1F\x7F-\x9F]', '', s)`. */
  function StripControl(s: string): (r: string)
    ensures |r| <= |s|
    decreases |s|
  {
    if s == [] then []
    else (if IsControl(s[0]) then [] else [s[0]]) + StripControl(s[1..])
  }

  /** No control character survives. */
  lemma {:induction false} StripControlNoControl(s: string)
    ensures NoControl(StripControl(s))
    decreases |s|
  {
    if s != [] {
      StripControlNoControl(s[1..]);
      if !IsControl(s[0]) {
        ConsNoControl(s[0], StripControl(s[1..]));
      }
    }
  }

  /** Plain spacing is kept. */
  lemma {:induction false} StripControlPlain(s: string)
    requires SpacesArePlain(s)
    ensures SpacesArePlain(StripControl(s))
    decreases |s|
  {
    if s != [] {
      SuffixKeeps(s, 1);
      StripControlPlain(s[1..]);
      if !IsControl(s[0]) {
        ConsPlain(s[0], StripControl(s[1..]));
      }
    }
  }

  /** A text without control characters is unchanged. */
  lemma {:induction false} StripControlIdentity(s: string)
    requires NoControl(s)
    ensures StripControl(s) == s
    decreases |s|
  {
    if s != [] {
      SuffixKeeps(s, 1);
      StripControlIdentity(s[1..]);
      assert [s[0]] + s[1..] == s;
    }
  }

  /** No control character survives, plain spacing is kept, and a text without control characters is unchanged. */
  lemma StripControlKeeps(s: string)
    ensures NoControl(StripControl(s))
    ensures SpacesArePlain(s) ==> SpacesArePlain(StripControl(s))
    ensures NoControl(s) ==> StripControl(s) == s
  {
    StripControlNoControl(s);
    if SpacesArePlain(s) {
      StripControlPlain(s);
    }
    if NoControl(s) {
      StripControlIdentity(s);
    }
  }

  /** `clean_content(content)`; `None` stands for Python's `None`. */
  function CleanContent(content: Option<string>): (r: string)
    ensures content == None || content == Some("") ==> r == ""
    ensures Trimmed(r)
  {
    match content
    case None => ""
    case Some(s) =>
      if s == "" then "" else Strip(StripControl(CollapseSpaces(s)))
  }

  /** The cleaned text has no control characters, no outer whitespace, and no whitespace but the plain space. */
  lemma CleanShape(content: Option<string>)
    ensures NoControl(CleanContent(content))
    ensures Trimmed(CleanContent(content))
    ensures SpacesArePlain(CleanContent(content))
  {
    if content.Some? && content.value != "" {
      var s := content.value;
      var c := CollapseSpaces(s);
      CollapseKeeps(s);
      var u := StripControl(c);
      StripControlKeeps(c);
      StripKeeps(u);
    }
  }

  /** The characters cleaning must keep, in order: neither whitespace nor control. */
  function Visible(s: string): string
    decreases |s|
  {
    if s == [] then [] else (if IsSpace(s[0]) || IsControl(s[0]) then [] else [s[0]]) + Visible(s[1..])
  }

  lemma {:induction false} VisibleAppend(a: string, b: string)
    ensures Visible(a + b) == Visible(a) + Visible(b)
    decreases |a|
  {
    if a == [] {
      assert a + b == b;
    } else {
      assert (a + b)[0] == a[0];
      assert (a + b)[1..] == a[1..] + b;
      VisibleAppend(a[1..], b);
    }
  }

  lemma {:induction false} VisibleTrimStart(s: string)
    ensures Visible(TrimStart(s)) == Visible(s)
    decreases |s|
  {
    if s != [] && IsSpace(s[0]) {
      VisibleTrimStart(s[1..]);
    }
  }

  lemma {:induction false} VisibleTrimEnd(s: string)
    ensures Visible(TrimEnd(s)) == Visible(s)
    decreases |s|
  {
    if s != [] && IsSpace(s[|s| - 1]) {
      var front := s[..|s| - 1];
      VisibleTrimEnd(front);
      assert s == front + [s[|s| - 1]];
      VisibleAppend(front, [s[|s| - 1]]);
    }
  }

  lemma VisibleStrip(s: string)
    ensures Visible(Strip(s)) == Visible(s)
  {
    VisibleTrimStart(s);
    VisibleTrimEnd(TrimStart(s));
  }

  lemma {:induction false} VisibleCollapse(s: string)
    ensures Visible(CollapseSpaces(s)) == Visible(s)
    decreases |s|
  {
    if s != [] {
      if IsSpace(s[0]) {
        var rest := TrimStart(s[1..]);
        VisibleCollapse(rest);
        VisibleTrimStart(s[1..]);
        VisibleAppend([' '], CollapseSpaces(rest));
      } else {
        VisibleCollapse(s[1..]);
        VisibleAppend([s[0]], CollapseSpaces(s[1..]));
      }
    }
  }

  lemma {:induction false} VisibleStripControl(s: string)
    ensures Visible(StripControl(s)) == Visible(s)
    decreases |s|
  {
    if s != [] {
      VisibleStripControl(s[1..]);
      VisibleAppend(if IsControl(s[0]) then [] else [s[0]], StripControl(s[1..]));
    }
  }

  /** Cleaning loses no visible character and reorders none: only whitespace and control characters go. */
  lemma CleanKeepsVisibleText(s: string)
    ensures Visible(CleanContent(Some(s))) == Visible(s)
  {
    if s != "" {
      VisibleCollapse(s);
      VisibleStripControl(CollapseSpaces(s));
      VisibleStrip(StripControl(CollapseSpaces(s)));
    }
  }

  /** Without stray control characters, the output never holds two spaces in a row. */
  lemma CleanSingleSpaced(s: string)
    requires NoStrayControl(s)
    ensures SingleSpaced(CleanContent(Some(s)))
  {
    if s != "" {
      var c := CollapseSpaces(s);
      CollapseKeeps(s);
      StripControlKeeps(c);
      StripKeeps(c);
      CleanUnfold(s);
    }
  }

  /** `CollapseSpaces` leaves alone a text whose only whitespace is single spaces. */
  lemma {:induction false} CollapseSingleSpaced(s: string)
    requires SpacesArePlain(s) && SingleSpaced(s)
    ensures CollapseSpaces(s) == s
    decreases |s|
  {
    if s != [] {
      if IsSpace(s[0]) {
        assert TrimStart(s[1..]) == s[1..];
      }
      CollapseSingleSpaced(s[1..]);
    }
  }

  /** Without stray control characters, cleaning twice is cleaning once. */
  lemma CleanIdempotent(s: string)
    requires NoStrayControl(s)
    ensures CleanContent(Some(CleanContent(Some(s)))) == CleanContent(Some(s))
  {
    var r := CleanContent(Some(s));
    if r != "" {
      CleanShape(Some(s));
      assert SingleSpaced(r) by {
        CleanSingleSpaced(s);
      }
      CleanFixedPoint(r);
    }
  }

  /** A text that is already clean (trimmed, single plain spaces, no control characters) is its own cleaning. */
  lemma CleanFixedPoint(r: string)
    requires NoControl(r) && Trimmed(r) && SpacesArePlain(r) && SingleSpaced(r)
    ensures CleanContent(Some(r)) == r
  {
    if r != "" {
      assert CollapseSpaces(r) == r by {
        CollapseSingleSpaced(r);
      }
      assert StripControl(r) == r by {
        StripControlKeeps(r);
      }
      assert Strip(r) == r by {
        StripTrimmed(r);
      }
      CleanUnfold(r);
    }
  }

  /** `StripControl` one character at a time. */
  lemma StripControlCons(c: char, t: string)
    ensures StripControl([c] + t) == (if IsControl(c) then [] else [c]) + StripControl(t)
  {
    var s := [c] + t;
    assert s[0] == c && s[1..] == t;
  }

  /** `CollapseSpaces` on a text that starts with a non-whitespace character. */
  lemma CollapseVisibleCons(c: char, t: string)
    requires !IsSpace(c)
    ensures CollapseSpaces([c] + t) == [c] + CollapseSpaces(t)
  {
    var s := [c] + t;
    assert s[0] == c && s[1..] == t;
  }

  /** `CollapseSpaces` on a text that starts with a space. */
  lemma CollapseSpaceCons(t: string)
    ensures CollapseSpaces([' '] + t) == [' '] + CollapseSpaces(TrimStart(t))
  {
    var s := [' '] + t;
    assert s[0] == ' ' && s[1..] == t;
  }

  /** A text that starts with a visible character has nothing to trim. */
  lemma TrimStartVisible(t: string)
    requires t != [] && !IsSpace(t[0])
    ensures TrimStart(t) == t
  {
  }

  /** One whitespace character before a visible one is trimmed. */
  lemma TrimStartOne(c: char, t: string)
    requires IsSpace(c) && t != [] && !IsSpace(t[0])
    ensures TrimStart([c] + t) == t
  {
    var s := [c] + t;
    assert s[0] == c && s[1..] == t;
  }

  lemma CleanUnfold(s: string)
    requires s != ""
    ensures CleanContent(Some(s)) == Strip(StripControl(CollapseSpaces(s)))
  {
  }

  /** A trimmed text is its own `strip()`. */
  lemma StripTrimmed(s: string)
    requires Trimmed(s)
    ensures Strip(s) == s
  {
  }

  /** Neither whitespace nor a control character. */
  predicate IsVisible(c: char)
  {
    !IsSpace(c) && !IsControl(c)
  }

  /** A single visible character is left alone by the collapse. */
  lemma CollapseOne(b: char)
    requires !IsSpace(b)
    ensures CollapseSpaces([b]) == [b]
  {
    CollapseVisibleCons(b, []);
    assert [b] + [] == [b];
  }

  /** A visible character in front of a text the collapse leaves alone. */
  lemma CollapseVisibleStep(c: char, t: string)
    requires !IsSpace(c) && CollapseSpaces(t) == t
    ensures CollapseSpaces([c] + t) == [c] + t
  {
    CollapseVisibleCons(c, t);
  }

  /** A single space in front of such a text, when the text starts with a visible character. */
  lemma CollapseSpaceStep(t: string)
    requires t != [] && !IsSpace(t[0]) && CollapseSpaces(t) == t
    ensures CollapseSpaces([' '] + t) == [' '] + t
  {
    TrimStartVisible(t);
    CollapseSpaceCons(t);
  }

  /** `[a, ' ', x, ' ', b]` has single spaces only, so the collapse leaves it alone. */
  lemma CollapseStray(a: char, x: char, b: char)
    requires IsVisible(a) && IsVisible(b) && IsControl(x) && !IsSpace(x)
    ensures CollapseSpaces([a, ' ', x, ' ', b]) == [a, ' ', x, ' ', b]
  {
    assert [a] + ([' '] + ([x] + ([' '] + [b]))) == [a, ' ', x, ' ', b];
    var s1 := [b];
    var s2 := [' '] + s1;
    var s3 := [x] + s2;
    var s4 := [' '] + s3;
    CollapseOne(b);
    CollapseSpaceStep(s1);
    CollapseVisibleStep(x, s2);
    CollapseSpaceStep(s3);
    CollapseVisibleStep(a, s4);
  }

  /** Removing `x` from `[a, ' ', x, ' ', b]` brings its two spaces together. */
  lemma StripControlStray(a: char, x: char, b: char)
    requires IsVisible(a) && IsVisible(b) && IsControl(x) && !IsSpace(x)
    ensures StripControl([a, ' ', x, ' ', b]) == [a, ' ', ' ', b]
  {
    assert [a] + ([' '] + ([x] + ([' '] + [b]))) == [a, ' ', x, ' ', b];
    assert [a] + ([' '] + ([' '] + [b])) == [a, ' ', ' ', b];
    var s1 := [b];
    var s2 := [' '] + s1;
    var s3 := [x] + s2;
    var s4 := [' '] + s3;
    assert StripControl(s1) == s1 by {
      StripControlCons(b, []);
      assert [b] + [] == s1;
    }
    assert StripControl(s2) == s2 by {
      StripControlCons(' ', s1);
    }
    assert StripControl(s3) == s2 by {
      StripControlCons(x, s2);
      assert [] + s2 == s2;
    }
    assert StripControl(s4) == [' '] + s2 by {
      StripControlCons(' ', s3);
    }
    assert StripControl([a] + s4) == [a] + ([' '] + s2) by {
      StripControlCons(a, s4);
    }
  }

  /** Two spaces in front of a text that starts with a visible character become one. */
  lemma CollapseDoubleStep(t: string)
    requires t != [] && !IsSpace(t[0]) && CollapseSpaces(t) == t
    ensures CollapseSpaces([' '] + ([' '] + t)) == [' '] + t
  {
    TrimStartOne(' ', t);
    CollapseSpaceCons([' '] + t);
  }

  /** The collapse turns the double space of `[a, ' ', ' ', b]` into one. */
  lemma CollapseDoubleSpace(a: char, b: char)
    requires IsVisible(a) && IsVisible(b)
    ensures CollapseSpaces([a, ' ', ' ', b]) == [a, ' ', b]
  {
    assert [a] + ([' '] + ([' '] + [b])) == [a, ' ', ' ', b];
    assert [a] + ([' '] + [b]) == [a, ' ', b];
    var s1 := [b];
    var s3 := [' '] + ([' '] + s1);
    CollapseOne(b);
    CollapseDoubleStep(s1);
    CollapseVisibleCons(a, s3);
  }

  /** `[a, ' ', x, ' ', b]` cleans to `[a, ' ', ' ', b]`. */
  lemma CleanStray(a: char, x: char, b: char)
    requires IsVisible(a) && IsVisible(b) && IsControl(x) && !IsSpace(x)
    ensures CleanContent(Some([a, ' ', x, ' ', b])) == [a, ' ', ' ', b]
  {
    CleanUnfold([a, ' ', x, ' ', b]);
    CollapseStray(a, x, b);
    StripControlStray(a, x, b);
    StripTrimmed([a, ' ', ' ', b]);
  }

  /** `[a, ' ', b]` has no control character and no outer whitespace, so the last two steps keep it. */
  lemma FinishSingle(a: char, b: char)
    requires IsVisible(a) && IsVisible(b)
    ensures Strip(StripControl([a, ' ', b])) == [a, ' ', b]
  {
    var single := [a, ' ', b];
    assert NoControl(single) by {
      assert forall i :: 0 <= i < 3 ==> single[i] in {a, ' ', b};
    }
    StripControlIdentity(single);
    StripTrimmed(single);
  }

  /** `[a, ' ', ' ', b]` cleans to `[a, ' ', b]`. */
  lemma CleanDouble(a: char, b: char)
    requires IsVisible(a) && IsVisible(b)
    ensures CleanContent(Some([a, ' ', ' ', b])) == [a, ' ', b]
  {
    CleanUnfold([a, ' ', ' ', b]);
    CollapseDoubleSpace(a, b);
    FinishSingle(a, b);
  }

  /**
   * A stray control character between two spaces: cleaning leaves the two
   * spaces it separated, and a second cleaning collapses them. So cleaning
   * is not idempotent in general.
   */
  lemma StrayControlBreaksIdempotence(a: char, x: char, b: char)
    requires IsVisible(a) && IsVisible(b) && IsControl(x) && !IsSpace(x)
    ensures CleanContent(Some([a, ' ', x, ' ', b])) == [a, ' ', ' ', b]
    ensures CleanContent(Some([a, ' ', ' ', b])) == [a, ' ', b]
  {
    CleanStray(a, x, b);
    CleanDouble(a, b);
  }

  /** The smallest instance: `"a \x01 b"` cleans to `"a  b"`, and cleaning that again gives `"a b"`. */
  lemma StrayControlExample()
    ensures CleanContent(Some("a \U{1} b")) == "a  b"
    ensures CleanContent(Some("a  b")) == "a b"
  {
    StrayControlBreaksIdempotence('a', '\U{1}', 'b');
  }

  /** ASCII lower-casing of one character. */
  function LowerChar(c: char): char
  {
    if 'A' <= c <= 'Z' then (c as int + 32) as char else c
  }

  /** `s.lower()`, for ASCII letters. */
  function Lower(s: string): (r: string)
  {
    seq(|s|, i requires 0 <= i < |s| => LowerChar(s[i]))
  }

  /** `w` occurs in `s` at position `i`. */
  predicate OccursAt(s: string, w: string, i: int)
  {
    0 <= i && i + |w| <= |s| && s[i..i + |w|] == w
  }

  /** Python's `w in s` on strings. */
  function Contains(s: string, w: string): bool
    decreases |s|
  {
    if w <= s then true else if s == [] then false else Contains(s[1..], w)
  }

  /** A window of `s[1..]` is the window of `s` one place later. */
  lemma WindowOfTail(s: string, i: nat, n: nat)
    requires i + n < |s|
    ensures s[1..][i..i + n] == s[i + 1..i + 1 + n]
  {
    var x := s[1..][i..i + n];
    var y := s[i + 1..i + 1 + n];
    assert forall k :: 0 <= k < n ==> x[k] == y[k];
  }

  /** Where `Contains` holds, `w` occurs at some position `i`. */
  lemma {:induction false} ContainsWitness(s: string, w: string) returns (i: nat)
    requires Contains(s, w)
    ensures OccursAt(s, w, i)
    decreases |s|
  {
    if w <= s {
      i := 0;
    } else {
      var j := ContainsWitness(s[1..], w);
      WindowOfTail(s, j, |w|);
      i := j + 1;
    }
  }

  /** An occurrence anywhere makes `Contains` hold. */
  lemma {:induction false} OccursContains(s: string, w: string, i: nat)
    requires OccursAt(s, w, i)
    ensures Contains(s, w)
    decreases i
  {
    if i > 0 && !(w <= s) {
      WindowOfTail(s, i - 1, |w|);
      OccursContains(s[1..], w, i - 1);
    }
  }

  /** `Contains` is substring search: it holds exactly when `w` occurs somewhere in `s`. */
  lemma ContainsIff(s: string, w: string)
    ensures Contains(s, w) <==> exists i :: OccursAt(s, w, i)
  {
    if Contains(s, w) {
      var i := ContainsWitness(s, w);
    }
    if exists i :: OccursAt(s, w, i) {
      var i :| OccursAt(s, w, i);
      OccursContains(s, w, i);
    }
  }

  /** The name, once lower-cased, mentions `w`. */
  ghost predicate Mentions(name: string, w: string)
  {
    exists i :: OccursAt(Lower(name), w, i)
  }

  datatype AssignmentType = Homework | Project | Syllabus | Other {
    /** The string the source returns. */
    function Name(): string
    {
      match this
      case Homework => "homework"
      case Project => "project"
      case Syllabus => "syllabus"
      case Other => "other"
    }
  }

  /** `determine_assignment_type(filename)`: the first keyword group the lower-cased name mentions. */
  function DetermineAssignmentType(fileName: string): (t: AssignmentType)
    ensures t == Homework <==> Mentions(fileName, "homework") || Mentions(fileName, "hw")
    ensures t == Project <==> !Mentions(fileName, "homework") && !Mentions(fileName, "hw") && Mentions(fileName, "project")
    ensures t == Syllabus <==>
      !Mentions(fileName, "homework") && !Mentions(fileName, "hw") && !Mentions(fileName, "project") && Mentions(fileName, "syllabus")
    ensures t == Other <==>
      !Mentions(fileName, "homework") && !Mentions(fileName, "hw") && !Mentions(fileName, "project") && !Mentions(fileName, "syllabus")
  {
    var lower := Lower(fileName);
    ContainsIff(lower, "homework");
    ContainsIff(lower, "hw");
    ContainsIff(lower, "project");
    ContainsIff(lower, "syllabus");
    if Contains(lower, "homework") || Contains(lower, "hw") then Homework
    else if Contains(lower, "project") then Project
    else if Contains(lower, "syllabus") then Syllabus
    else Other
  }

  /** Lower-casing twice is lower-casing once. */
  lemma LowerIdempotent(s: string)
    ensures Lower(Lower(s)) == Lower(s)
  {
    forall i | 0 <= i < |s| ensures Lower(Lower(s))[i] == Lower(s)[i] {
      assert Lower(s)[i] == LowerChar(s[i]);
    }
  }

  /** The classification ignores case: names that agree once lower-cased get the same type. */
  lemma AssignmentTypeIgnoresCase(a: string, b: string)
    requires Lower(a) == Lower(b)
    ensures DetermineAssignmentType(a) == DetermineAssignmentType(b)
    ensures DetermineAssignmentType(Lower(a)) == DetermineAssignmentType(a)
  {
    LowerIdempotent(a);
  }

  /** `homework`/`hw` outranks `project`: a homework project file is homework. */
  lemma HomeworkOutranksProject()
    ensures DetermineAssignmentType("HW_project.pdf") == Homework
  {
    assert OccursAt(Lower("HW_project.pdf"), "hw", 0);
  }
}
