/**
 * C strings held in a character buffer, and the splitting of a line into
 * whitespace-separated fields that both trim() and prepareArguments() rely on.
 * The recursive definitions peel off the LAST character, so that a loop that
 * scans left to right extends `F(s[..i])` to `F(s[..i+1])` one step at a time.
 */
module Strings {
  import opened CType

  /** strlen(): the index of the first NUL, or the whole buffer if there is none. */
  function StrLen(s: seq<char>): (n: nat)
    ensures n <= |s|
    ensures forall i :: 0 <= i < n ==> s[i] != NUL
    ensures n < |s| ==> s[n] == NUL
  {
    if s == [] || s[0] == NUL then 0 else 1 + StrLen(s[1..])
  }

  /** The C string the buffer holds. */
  function Line(s: seq<char>): seq<char> {
    s[..StrLen(s)]
  }

  function Fill(c: char, n: nat): seq<char> {
    seq(n, _ => c)
  }

  predicate AllSpace(t: seq<char>) {
    forall i :: 0 <= i < |t| ==> IsSpace(t[i])
  }

  /** No leading whitespace and no two adjacent whitespace characters: the form trim() produces. */
  ghost predicate Shaped(t: seq<char>) {
    && (t != [] ==> !IsSpace(t[0]))
    && forall i, j :: 0 <= i < |t| && 0 <= j < |t| && j == i + 1 ==> !(IsSpace(t[i]) && IsSpace(t[j]))
  }

  /** A line every character of which is graphic or whitespace (no control characters). */
  predicate Clean(t: seq<char>) {
    forall i :: 0 <= i < |t| ==> IsGraph(t[i]) || IsSpace(t[i])
  }

  /** The characters of `t` that are not whitespace, in order. */
  function NonSpace(t: seq<char>): seq<char> {
    if t == [] then []
    else NonSpace(t[..|t| - 1]) + (if IsSpace(t[|t| - 1]) then [] else [t[|t| - 1]])
  }

  /** The characters of `w` that are graphic, in order. */
  function Graphic(w: seq<char>): (r: seq<char>)
    ensures |r| <= |w|
    ensures forall i :: 0 <= i < |r| ==> IsGraph(r[i])
  {
    if w == [] then []
    else Graphic(w[..|w| - 1]) + (if IsGraph(w[|w| - 1]) then [w[|w| - 1]] else [])
  }

  /** Graphic applied to every field. */
  function GraphicAll(f: seq<seq<char>>): (r: seq<seq<char>>)
    ensures |r| == |f|
  {
    if f == [] then [] else GraphicAll(f[..|f| - 1]) + [Graphic(f[|f| - 1])]
  }

  /** GraphicAll works field by field. */
  lemma {:induction false} GraphicAllAt(f: seq<seq<char>>)
    ensures forall i :: 0 <= i < |f| ==> GraphicAll(f)[i] == Graphic(f[i])
  {
    if f != [] {
      GraphicAllAt(f[..|f| - 1]);
      GraphicAllSnoc(f);
      var r := GraphicAll(f[..|f| - 1]);
      assert forall i :: 0 <= i < |r| ==> (r + [Graphic(f[|f| - 1])])[i] == r[i];
    }
  }

  lemma GraphicAllSnoc(f: seq<seq<char>>)
    requires f != []
    ensures GraphicAll(f) == GraphicAll(f[..|f| - 1]) + [Graphic(f[|f| - 1])]
  {
  }

  /**
   * The fields of `t`: every single whitespace character separates two fields,
   * so runs of whitespace produce empty fields.
   */
  function Fields(t: seq<char>): (f: seq<seq<char>>)
    ensures |f| >= 1
  {
    if t == [] then [[]]
    else
      var f := Fields(t[..|t| - 1]);
      var c := t[|t| - 1];
      if IsSpace(c) then f + [[]] else f[..|f| - 1] + [f[|f| - 1] + [c]]
  }

  function LastField(t: seq<char>): seq<char> {
    Fields(t)[|Fields(t)| - 1]
  }

  /** The non-empty fields, in order. */
  function NonEmpty(f: seq<seq<char>>): seq<seq<char>> {
    if f == [] then []
    else NonEmpty(f[..|f| - 1]) + (if f[|f| - 1] == [] then [] else [f[|f| - 1]])
  }

  /** The whitespace-delimited words of a line. */
  function Words(t: seq<char>): seq<seq<char>> {
    NonEmpty(Fields(t))
  }

  /** Index of the first whitespace character, or |t|. */
  function FirstSpace(t: seq<char>): (k: nat)
    ensures k <= |t|
    ensures forall i :: 0 <= i < k ==> !IsSpace(t[i])
    ensures k < |t| ==> IsSpace(t[k])
  {
    if t == [] || IsSpace(t[0]) then 0 else 1 + FirstSpace(t[1..])
  }

  /** Index of the first non-whitespace character, or |t|. */
  function FirstNonSpace(t: seq<char>): (k: nat)
    ensures k <= |t|
    ensures forall i :: 0 <= i < k ==> IsSpace(t[i])
    ensures k < |t| ==> !IsSpace(t[k])
  {
    if t == [] || !IsSpace(t[0]) then 0 else 1 + FirstNonSpace(t[1..])
  }

  // ---------------------------------------------------------------------
  // Lemmas about C strings

  /** A NUL-free prefix followed by NUL padding is the C string the buffer holds. */
  lemma {:induction false} StrLenPadded(l: seq<char>, n: nat)
    requires NUL !in l
    ensures StrLen(l + Fill(NUL, n)) == |l|
    ensures Line(l + Fill(NUL, n)) == l
  {
    var s := l + Fill(NUL, n);
    assert forall i :: 0 <= i < |l| ==> s[i] == l[i] && s[i] != NUL;
    assert n > 0 ==> s[|l|] == NUL;
    assert s[..|l|] == l;
  }

  lemma NonSpaceSnoc(p: seq<char>, c: char)
    ensures NonSpace(p + [c]) == NonSpace(p) + (if IsSpace(c) then [] else [c])
  {
    assert (p + [c])[..|p|] == p;
  }

  lemma {:induction false} NonSpaceMember(t: seq<char>, c: char)
    requires !IsSpace(c)
    ensures c in NonSpace(t) <==> c in t
  {
    if t != [] {
      var p := t[..|t| - 1];
      assert t == p + [t[|t| - 1]];
      NonSpaceMember(p, c);
    }
  }

  lemma {:induction false} GraphicOfGraph(w: seq<char>)
    requires forall i :: 0 <= i < |w| ==> IsGraph(w[i])
    ensures Graphic(w) == w
  {
    if w != [] {
      var p := w[..|w| - 1];
      GraphicOfGraph(p);
      assert w == p + [w[|w| - 1]];
    }
  }

  // ---------------------------------------------------------------------
  // Lemmas about fields and words

  /** The last field is empty exactly when the line is empty or ends with whitespace. */
  lemma LastFieldEmpty(t: seq<char>)
    ensures LastField(t) == [] <==> (t == [] || IsSpace(t[|t| - 1]))
  {
  }

  /** A line with no whitespace is a single field. */
  lemma {:induction false} FieldsOfWord(w: seq<char>)
    requires forall i :: 0 <= i < |w| ==> !IsSpace(w[i])
    ensures Fields(w) == [w]
  {
    if w != [] {
      var p := w[..|w| - 1];
      FieldsOfWord(p);
      assert w == p + [w[|w| - 1]];
    }
  }

  /** No field contains whitespace; clean lines have only graphic characters in their fields. */
  lemma {:induction false} FieldsChars(t: seq<char>)
    ensures forall i, j :: 0 <= i < |Fields(t)| && 0 <= j < |Fields(t)[i]| ==> !IsSpace(Fields(t)[i][j])
    ensures Clean(t) ==> forall i, j :: 0 <= i < |Fields(t)| && 0 <= j < |Fields(t)[i]| ==> IsGraph(Fields(t)[i][j])
  {
    if t != [] {
      var p := t[..|t| - 1];
      FieldsChars(p);
    }
  }

  /** One step of the definition of Fields, for a line written as p + [d]. */
  lemma FieldsSnoc(p: seq<char>, d: char)
    ensures Fields(p + [d]) == if IsSpace(d) then Fields(p) + [[]]
                               else Fields(p)[..|Fields(p)| - 1] + [Fields(p)[|Fields(p)| - 1] + [d]]
  {
    assert (p + [d])[..|p|] == p;
  }

  /** Extending the last field of a concatenation extends the last field of its right part. */
  lemma ExtendLastOfConcat(fa: seq<seq<char>>, fb: seq<seq<char>>, d: char)
    requires |fb| >= 1
    ensures (fa + fb)[..|fa + fb| - 1] + [(fa + fb)[|fa + fb| - 1] + [d]]
            == fa + (fb[..|fb| - 1] + [fb[|fb| - 1] + [d]])
  {
    var g := fa + fb;
    assert g[..|g| - 1] == fa + fb[..|fb| - 1];
  }

  lemma FieldsSplitStep(u: seq<char>, d: char, fa: seq<seq<char>>, b: seq<char>)
    requires Fields(u) == fa + Fields(b)
    ensures Fields(u + [d]) == fa + Fields(b + [d])
  {
    FieldsSnoc(u, d);
    FieldsSnoc(b, d);
    if !IsSpace(d) {
      ExtendLastOfConcat(fa, Fields(b), d);
    } else {
      assert fa + Fields(b) + [[]] == fa + (Fields(b) + [[]]);
    }
  }

  /** Splitting at one whitespace character splits the fields. */
  lemma {:induction false} FieldsSplit(a: seq<char>, c: char, b: seq<char>)
    requires IsSpace(c)
    ensures Fields(a + [c] + b) == Fields(a) + Fields(b)
    decreases |b|
  {
    if b == [] {
      assert a + [c] + b == a + [c];
      FieldsSnoc(a, c);
    } else {
      var b' := b[..|b| - 1];
      var d := b[|b| - 1];
      assert b == b' + [d];
      FieldsSplit(a, c, b');
      assert a + [c] + b == (a + [c] + b') + [d];
      FieldsSplitStep(a + [c] + b', d, Fields(a), b');
    }
  }

  /** The first field is the line up to its first whitespace character. */
  lemma {:induction false} FirstField(t: seq<char>)
    ensures Fields(t)[0] == t[..FirstSpace(t)]
    ensures |Fields(t)| == 1 <==> FirstSpace(t) == |t|
  {
    if t != [] {
      var p := t[..|t| - 1];
      FirstField(p);
      assert t == p + [t[|t| - 1]];
      if FirstSpace(p) < |p| {
        assert FirstSpace(t) == FirstSpace(p) by { FirstSpaceExtend(p, t[|t| - 1]); }
      } else {
        FirstSpaceExtend(p, t[|t| - 1]);
      }
    }
  }

  lemma {:induction false} FirstSpaceExtend(p: seq<char>, c: char)
    ensures FirstSpace(p + [c]) == if FirstSpace(p) < |p| || IsSpace(c) then FirstSpace(p) else |p| + 1
  {
    var t := p + [c];
    var k := FirstSpace(p);
    assert forall i :: 0 <= i < |p| ==> t[i] == p[i];
    assert t[|p|] == c;
    if k < |p| {
      assert IsSpace(t[k]);
      assert FirstSpace(t) <= k;
    } else {
      assert forall i :: 0 <= i < |p| ==> !IsSpace(t[i]);
      assert FirstSpace(t) >= |p|;
    }
  }

  /** A line has no words exactly when it is all whitespace. */
  lemma {:induction false} NoWords(t: seq<char>)
    ensures Words(t) == [] <==> AllSpace(t)
  {
    if t != [] {
      var p := t[..|t| - 1];
      var c := t[|t| - 1];
      assert t == p + [c];
      NoWords(p);
      if IsSpace(c) {
        WordsSnocSpace(p, c);
        AllSpaceSnoc(p, c);
      } else {
        WordsSnocWord(p, c);
        assert !IsSpace(t[|t| - 1]);
      }
    }
  }

  lemma AllSpaceSnoc(p: seq<char>, c: char)
    requires IsSpace(c)
    ensures AllSpace(p + [c]) <==> AllSpace(p)
  {
    assert forall i :: 0 <= i < |p| ==> (p + [c])[i] == p[i];
  }

  lemma WordsSnocSpace(p: seq<char>, c: char)
    requires IsSpace(c)
    ensures Words(p + [c]) == Words(p) && LastField(p + [c]) == []
  {
    FieldsSnoc(p, c);
    var f := Fields(p);
    assert (f + [[]])[..|f|] == f;
  }

  lemma WordsSnocWord(p: seq<char>, c: char)
    requires !IsSpace(c)
    ensures var f := Fields(p);
      Words(p + [c]) == NonEmpty(f[..|f| - 1]) + [LastField(p) + [c]]
  {
    FieldsSnoc(p, c);
    var f := Fields(p);
    var g := f[..|f| - 1] + [f[|f| - 1] + [c]];
    assert g[..|g| - 1] == f[..|f| - 1];
  }

  /**
   * In a line with no leading and no doubled whitespace, every field but the
   * last is a word, and the last is a word unless the line ends with whitespace.
   */
  lemma {:induction false} ShapedFields(t: seq<char>)
    requires Shaped(t)
    ensures forall i :: 0 <= i < |Fields(t)| - 1 ==> Fields(t)[i] != []
    ensures Words(t) == if LastField(t) == [] then Fields(t)[..|Fields(t)| - 1] else Fields(t)
  {
    if t == [] {
      assert Fields(t) == [[]];
    } else {
      var p := t[..|t| - 1];
      var c := t[|t| - 1];
      assert t == p + [c];
      ShapedPrefix(t, |t| - 1);
      ShapedFields(p);
      if IsSpace(c) {
        assert |t| > 1 ==> !IsSpace(t[|t| - 2]);
        assert p != [] && !IsSpace(p[|p| - 1]);
        SpaceAfterWord(p, c);
      } else {
        CharAfterWords(p, c);
      }
    }
  }

  /** Every field but the last is a word, and the words are the fields less an empty last one. */
  ghost predicate FieldsAreWords(t: seq<char>) {
    var f := Fields(t);
    && (forall i :: 0 <= i < |f| - 1 ==> f[i] != [])
    && Words(t) == if f[|f| - 1] == [] then f[..|f| - 1] else f
  }

  lemma SpaceAfterWord(p: seq<char>, c: char)
    requires IsSpace(c) && p != [] && !IsSpace(p[|p| - 1]) && FieldsAreWords(p)
    ensures FieldsAreWords(p + [c])
  {
    FieldsSnoc(p, c);
    LastFieldEmpty(p);
    WordsOpen(Fields(p));
  }

  lemma CharAfterWords(p: seq<char>, c: char)
    requires !IsSpace(c) && FieldsAreWords(p)
    ensures FieldsAreWords(p + [c])
  {
    FieldsSnoc(p, c);
    WordsExtend(Fields(p), c);
  }

  /** Opening a new field after a non-empty last one adds no word. */
  lemma WordsOpen(f: seq<seq<char>>)
    requires |f| >= 1 && f[|f| - 1] != []
    requires forall i :: 0 <= i < |f| - 1 ==> f[i] != []
    requires NonEmpty(f) == f
    ensures var g := f + [[]];
      && (forall i :: 0 <= i < |g| - 1 ==> g[i] != [])
      && NonEmpty(g) == g[..|g| - 1]
  {
    var g := f + [[]];
    assert g[..|g| - 1] == f;
  }

  /** Extending the last field makes it a word and keeps the words before it. */
  lemma WordsExtend(f: seq<seq<char>>, c: char)
    requires |f| >= 1
    requires forall i :: 0 <= i < |f| - 1 ==> f[i] != []
    requires NonEmpty(f) == if f[|f| - 1] == [] then f[..|f| - 1] else f
    ensures var g := f[..|f| - 1] + [f[|f| - 1] + [c]];
      && (forall i :: 0 <= i < |g| - 1 ==> g[i] != [])
      && NonEmpty(g) == g
  {
    var u := f[..|f| - 1];
    var g := u + [f[|f| - 1] + [c]];
    assert g[..|g| - 1] == u;
    assert NonEmpty(f) == NonEmpty(u) + (if f[|f| - 1] == [] then [] else [f[|f| - 1]]);
    assert NonEmpty(u) == u;
  }

  lemma ShapedPrefix(t: seq<char>, k: nat)
    requires Shaped(t) && k <= |t|
    ensures Shaped(t[..k])
  {
    assert forall i :: 0 <= i < k ==> t[..k][i] == t[i];
  }

  /** NonEmpty keeps no empty field. */
  lemma {:induction false} NonEmptyAll(f: seq<seq<char>>)
    ensures forall i :: 0 <= i < |NonEmpty(f)| ==> NonEmpty(f)[i] != []
    decreases |f|
  {
    if f != [] {
      NonEmptyAll(f[..|f| - 1]);
    }
  }

  /** No word of a line is empty. */
  lemma WordsNonEmpty(t: seq<char>)
    ensures forall i :: 0 <= i < |Words(t)| ==> Words(t)[i] != []
  {
    NonEmptyAll(Fields(t));
  }
}
