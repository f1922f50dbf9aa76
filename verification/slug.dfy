/** Slug derivation for new courses: lower-case the title, turn every run of
    whitespace into one `-`, drop every character outside `[a-z0-9-]`, then
    append `-` and six nanoid characters from `0-9a-f` until the slug is unused.
    Lower-casing is modelled for ASCII letters only. */
module Slug {

  /** The characters a slug may contain: `[a-z0-9-]`. */
  predicate SlugChar(c: char) {
    ('a' <= c <= 'z') || ('0' <= c <= '9') || c == '-'
  }

  predicate IsSlug(s: string) {
    forall i :: 0 <= i < |s| ==> SlugChar(s[i])
  }

  /** The characters JavaScript's `\s` matches. */
  predicate IsJsSpace(c: char) {
    || c == ' ' || c == '\t' || c == '\n' || c == '\U{B}' || c == '\U{C}' || c == '\r'
    || c == '\U{A0}' || c == '\U{1680}' || ('\U{2000}' <= c <= '\U{200A}')
    || c == '\U{2028}' || c == '\U{2029}' || c == '\U{202F}' || c == '\U{205F}'
    || c == '\U{3000}' || c == '\U{FEFF}'
  }

  function LowerChar(c: char): char {
    if 'A' <= c <= 'Z' then (c as int + 32) as char else c
  }

  /** `toLowerCase()` restricted to ASCII letters. */
  function ToLower(s: string): (r: string)
    ensures |r| == |s|
    ensures forall i :: 0 <= i < |s| ==> r[i] == LowerChar(s[i])
  {
    if |s| == 0 then [] else [LowerChar(s[0])] + ToLower(s[1..])
  }

  /** Drops the leading run of whitespace. */
  function SkipSpaces(s: string): (r: string)
    ensures |r| <= |s|
    ensures |r| == 0 || !IsJsSpace(r[0])
  {
    if |s| > 0 && IsJsSpace(s[0]) then SkipSpaces(s[1..]) else s
  }

  /** `replace(/\s+/g, "-")`: each maximal run of whitespace becomes one `-`. */
  function DashSpaceRuns(s: string): (r: string)
    ensures forall i :: 0 <= i < |r| ==> !IsJsSpace(r[i])
    ensures |r| <= |s|
    decreases |s|
  {
    if |s| == 0 then []
    else if IsJsSpace(s[0]) then "-" + DashSpaceRuns(SkipSpaces(s[1..]))
    else [s[0]] + DashSpaceRuns(s[1..])
  }

  /** Replacing whitespace runs keeps every other character: each character
      that is neither whitespace nor `-` occurs as often as in the input. */
  lemma {:induction false} DashSpaceRunsKeepsText(s: string)
    ensures forall c :: !IsJsSpace(c) && c != '-' ==>
              multiset(DashSpaceRuns(s))[c] == multiset(s)[c]
    decreases |s|
  {
    if |s| > 0 {
      assert s == [s[0]] + s[1..];
      if IsJsSpace(s[0]) {
        SkipSpacesDropsOnlySpaces(s[1..]);
        DashSpaceRunsKeepsText(SkipSpaces(s[1..]));
      } else {
        DashSpaceRunsKeepsText(s[1..]);
      }
    }
  }

  lemma {:induction false} SkipSpacesDropsOnlySpaces(s: string)
    ensures forall c :: !IsJsSpace(c) ==> multiset(SkipSpaces(s))[c] == multiset(s)[c]
  {
    if |s| > 0 && IsJsSpace(s[0]) {
      SkipSpacesDropsOnlySpaces(s[1..]);
      assert s == [s[0]] + s[1..];
    }
  }

  /** No character of `s` is whitespace. */
  predicate NoSpaces(s: string) {
    forall i :: 0 <= i < |s| ==> !IsJsSpace(s[i])
  }

  /** Every character of `s` is whitespace. */
  predicate AllSpaces(s: string) {
    forall i :: 0 <= i < |s| ==> IsJsSpace(s[i])
  }

  /** Skipping a whitespace run stops at the first character after it. */
  lemma {:induction false} SkipSpacesOfRun(w: string, b: string)
    requires AllSpaces(w)
    requires |b| == 0 || !IsJsSpace(b[0])
    ensures SkipSpaces(w + b) == b
    decreases |w|
  {
    if |w| > 0 {
      assert (w + b)[1..] == w[1..] + b;
      SkipSpacesOfRun(w[1..], b);
    } else {
      assert w + b == b;
    }
  }

  /** Text without whitespace is left as it is. */
  lemma {:induction false} DashSpaceRunsKeepsPlain(t: string)
    requires NoSpaces(t)
    ensures DashSpaceRuns(t) == t
    decreases |t|
  {
    if |t| > 0 {
      DashSpaceRunsKeepsPlain(t[1..]);
      assert t == [t[0]] + t[1..];
    }
  }

  /** The value of `DashSpaceRuns`, one whitespace run at a time: the text
      before the run is kept in place, the whole run becomes exactly one `-`,
      and the rest is processed the same way. */
  lemma {:induction false} DashSpaceRunsSplit(t: string, w: string, b: string)
    requires NoSpaces(t)
    requires |w| > 0 && AllSpaces(w)
    requires |b| == 0 || !IsJsSpace(b[0])
    ensures DashSpaceRuns(t + w + b) == t + "-" + DashSpaceRuns(b)
    decreases |t|
  {
    if |t| == 0 {
      assert t + w + b == w + b;
      assert (w + b)[1..] == w[1..] + b;
      SkipSpacesOfRun(w[1..], b);
    } else {
      assert (t + w + b)[1..] == t[1..] + w + b;
      DashSpaceRunsSplit(t[1..], w, b);
      assert t == [t[0]] + t[1..];
    }
  }

  /** A non-empty whitespace-only string becomes a single `-`. */
  lemma DashSpaceRunsOfSpaces(w: string)
    requires |w| > 0 && AllSpaces(w)
    ensures DashSpaceRuns(w) == "-"
  {
    DashSpaceRunsSplit("", w, "");
    assert "" + w + "" == w;
  }

  /** `replace(/[^a-z0-9-]/g, "")`: keeps exactly the slug characters, in order. */
  function KeepSlugChars(s: string): (r: string)
    ensures IsSlug(r)
    ensures |r| <= |s|
  {
    if |s| == 0 then []
    else (if SlugChar(s[0]) then [s[0]] else []) + KeepSlugChars(s[1..])
  }

  /** Stripping removes only disallowed characters: each slug character occurs
      as often as in the input. */
  lemma {:induction false} KeepSlugCharsKeepsSlugChars(s: string)
    ensures forall c :: SlugChar(c) ==> multiset(KeepSlugChars(s))[c] == multiset(s)[c]
  {
    if |s| > 0 {
      assert s == [s[0]] + s[1..];
      KeepSlugCharsKeepsSlugChars(s[1..]);
    }
  }

  /** Stripping works character by character: it distributes over
      concatenation and keeps a single character exactly when it is a slug
      character, so the kept characters stay in their input order. */
  lemma {:induction false} KeepSlugCharsAppend(a: string, b: string)
    ensures KeepSlugChars(a + b) == KeepSlugChars(a) + KeepSlugChars(b)
    ensures |a| == 1 ==> KeepSlugChars(a) == if SlugChar(a[0]) then a else []
    decreases |a|
  {
    if |a| == 0 {
      assert a + b == b;
    } else {
      assert (a + b)[1..] == a[1..] + b;
      KeepSlugCharsAppend(a[1..], b);
      if |a| == 1 {
        assert a[1..] == [];
      }
    }
  }

  /** The base slug of a course title. */
  function BaseSlug(title: string): (r: string)
    ensures IsSlug(r)
    ensures |r| <= |title|
  {
    KeepSlugChars(DashSpaceRuns(ToLower(title)))
  }

  lemma {:induction false} ToLowerFixesSlug(s: string)
    requires IsSlug(s)
    ensures ToLower(s) == s
  {
    if |s| > 0 {
      ToLowerFixesSlug(s[1..]);
      assert s == [s[0]] + s[1..];
    }
  }

  lemma {:induction false} DashSpaceRunsFixesSlug(s: string)
    requires IsSlug(s)
    ensures DashSpaceRuns(s) == s
    decreases |s|
  {
    if |s| > 0 {
      assert !IsJsSpace(s[0]);
      DashSpaceRunsFixesSlug(s[1..]);
      assert s == [s[0]] + s[1..];
    }
  }

  lemma {:induction false} KeepSlugCharsFixesSlug(s: string)
    requires IsSlug(s)
    ensures KeepSlugChars(s) == s
  {
    if |s| > 0 {
      KeepSlugCharsFixesSlug(s[1..]);
      assert s == [s[0]] + s[1..];
    }
  }

  /** A string already in slug form is its own base slug. */
  lemma SlugIsFixedPoint(s: string)
    requires IsSlug(s)
    ensures BaseSlug(s) == s
  {
    ToLowerFixesSlug(s);
    DashSpaceRunsFixesSlug(s);
    KeepSlugCharsFixesSlug(s);
  }

  /** Slugifying twice gives the same slug as slugifying once. */
  lemma BaseSlugIdempotent(title: string)
    ensures BaseSlug(BaseSlug(title)) == BaseSlug(title)
  {
    SlugIsFixedPoint(BaseSlug(title));
  }

  /** The alphabet of the nanoid generator used for suffixes. */
  const NanoAlphabet: string := "1234567890abcdef"

  /** One nanoid draw: six characters from `NanoAlphabet`. */
  predicate IsNanoSuffix(d: string) {
    |d| == 6 && forall i :: 0 <= i < |d| ==> d[i] in NanoAlphabet
  }

  function Suffixed(base: string, draw: string): string {
    base + "-" + draw
  }

  /** Some candidate the loop can reach is unused: the base itself, or the base
      with one of the drawn suffixes. The generator eventually producing an
      unused suffix is what makes the source loop terminate. */
  predicate ReachesFreeSlug(base: string, taken: set<string>, draws: seq<string>) {
    base !in taken || exists i :: 0 <= i < |draws| && Suffixed(base, draws[i]) !in taken
  }

  /** The uniqueness loop. `draws` are the successive nanoid outputs; `used` is
      how many of them the loop consumed. The result is the base when that is
      free, and otherwise the base with the first drawn suffix that is free. */
  method ChooseSlug(base: string, taken: set<string>, draws: seq<string>)
    returns (slug: string, used: nat)
    requires forall i :: 0 <= i < |draws| ==> IsNanoSuffix(draws[i])
    requires ReachesFreeSlug(base, taken, draws)
    ensures slug !in taken
    ensures used <= |draws|
    ensures base !in taken ==> slug == base && used == 0
    ensures base in taken ==> 0 < used && slug == Suffixed(base, draws[used - 1])
    ensures forall i :: 0 <= i < used - 1 ==> Suffixed(base, draws[i]) in taken
  {
    slug := base;
    used := 0;
    while slug in taken
      invariant used <= |draws|
      invariant used == 0 ==> slug == base
      invariant used > 0 ==> base in taken && slug == Suffixed(base, draws[used - 1])
      invariant forall i :: 0 <= i < used - 1 ==> Suffixed(base, draws[i]) in taken
      invariant slug in taken ==>
                  exists i :: used <= i < |draws| && Suffixed(base, draws[i]) !in taken
      decreases |draws| - used
    {
      slug := Suffixed(base, draws[used]);
      used := used + 1;
    }
  }

  /** A suffixed slug is the base, a dash and six characters of the nanoid
      alphabet, so it is itself in slug form whenever the base is. */
  lemma SuffixedIsSlug(base: string, draw: string)
    requires IsSlug(base)
    requires IsNanoSuffix(draw)
    ensures IsSlug(Suffixed(base, draw))
    ensures |Suffixed(base, draw)| == |base| + 7
  {
    var s := Suffixed(base, draw);
    forall i | 0 <= i < |s| ensures SlugChar(s[i]) {
      if i > |base| {
        assert s[i] == draw[i - |base| - 1];
        assert s[i] in NanoAlphabet;
      }
    }
  }

  /** Example: a run of spaces becomes one dash and punctuation disappears. */
  lemma BaseSlugExample()
    ensures BaseSlug("Go  C+") == "go-c"
  {
    LowerExample();
    DashExample();
    KeepExample();
  }

  lemma LowerExample()
    ensures ToLower("Go  C+") == "go  c+"
  {
    assert ToLower("+") == "+";
    assert ToLower("C+") == "c+";
    assert ToLower(" C+") == " c+";
    assert ToLower("  C+") == "  c+";
    assert ToLower("o  C+") == "o  c+";
  }

  lemma DashExample()
    ensures DashSpaceRuns("go  c+") == "go-c+"
  {
    assert " c+"[1..] == "c+";
    assert SkipSpaces("c+") == "c+";
    assert SkipSpaces(" c+") == "c+";
    assert "+"[1..] == [];
    assert DashSpaceRuns("+") == "+";
    assert "c+"[1..] == "+";
    assert DashSpaceRuns("c+") == "c+";
    assert "  c+"[1..] == " c+";
    assert DashSpaceRuns("  c+") == "-c+";
    assert "o  c+"[1..] == "  c+";
    assert DashSpaceRuns("o  c+") == "o-c+";
    assert "go  c+"[1..] == "o  c+";
  }

  lemma KeepExample()
    ensures KeepSlugChars("go-c+") == "go-c"
  {
    assert "+"[1..] == [];
    assert KeepSlugChars("+") == "";
    assert "c+"[1..] == "+";
    assert KeepSlugChars("c+") == "c";
    assert "-c+"[1..] == "c+";
    assert KeepSlugChars("-c+") == "-c";
    assert "o-c+"[1..] == "-c+";
    assert KeepSlugChars("o-c+") == "o-c";
    assert "go-c+"[1..] == "o-c+";
  }
}
