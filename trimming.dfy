/**
 * trim(): drop the leading whitespace of the C string in the buffer and
 * collapse every run of whitespace to its first character.
 */
module Trimming {
  import opened CType
  import opened Strings

  /**
   * The string trim() builds from the C string `t`. The loop keeps a whitespace
   * character only when the character before it is not whitespace and it is
   * not the first character; the definition below peels the last character.
   */
  function Trimmed(t: seq<char>): (r: seq<char>)
    ensures |r| <= |t|
    ensures t != [] && !IsSpace(t[|t| - 1]) ==> r != [] && r[|r| - 1] == t[|t| - 1]
  {
    if t == [] then []
    else
      var p := t[..|t| - 1];
      var c := t[|t| - 1];
      if IsSpace(c) && (p == [] || IsSpace(p[|p| - 1])) then Trimmed(p) else Trimmed(p) + [c]
  }

  /** The whole buffer after trim(): the trimmed string, then NUL in every other cell. */
  function TrimBuffer(s: seq<char>): (r: seq<char>)
    ensures |r| == |s|
  {
    Trimmed(Line(s)) + Fill(NUL, |s| - |Trimmed(Line(s))|)
  }

  lemma TrimmedSnoc(p: seq<char>, c: char)
    ensures Trimmed(p + [c]) == if IsSpace(c) && (p == [] || IsSpace(p[|p| - 1])) then Trimmed(p)
                                else Trimmed(p) + [c]
  {
    assert (p + [c])[..|p|] == p;
  }

  /** One step of trim()'s loop: the character at i is dropped or appended. */
  lemma TrimStep(l: seq<char>, i: nat)
    requires i < |l|
    ensures Trimmed(l[..i + 1]) ==
      if IsSpace(l[i]) && (i == 0 || IsSpace(l[i - 1])) then Trimmed(l[..i]) else Trimmed(l[..i]) + [l[i]]
  {
    assert l[..i + 1] == l[..i] + [l[i]];
    TrimmedSnoc(l[..i], l[i]);
  }

  /** trim() never leaves leading or doubled whitespace. */
  lemma {:induction false} TrimmedIsShaped(t: seq<char>)
    ensures Shaped(Trimmed(t))
  {
    if t != [] {
      var p := t[..|t| - 1];
      var c := t[|t| - 1];
      assert t == p + [c];
      TrimmedIsShaped(p);
      TrimmedSnoc(p, c);
      var r := Trimmed(p);
      assert r != [] ==> (r + [c])[0] == r[0];
      assert forall i :: 0 <= i < |r| ==> (r + [c])[i] == r[i];
      if |r| > 0 && IsSpace(c) && IsSpace(r[|r| - 1]) {
        TrimmedLastSpace(p);
      }
    }
  }

  /** A trimmed string ends with whitespace only when the line does. */
  lemma {:induction false} TrimmedLastSpace(t: seq<char>)
    requires Trimmed(t) != [] && IsSpace(Trimmed(t)[|Trimmed(t)| - 1])
    ensures t != [] && IsSpace(t[|t| - 1])
  {
    var p := t[..|t| - 1];
    var c := t[|t| - 1];
    assert t == p + [c];
    TrimmedSnoc(p, c);
  }

  /** trim() drops only whitespace: the other characters stay, in order. */
  lemma {:induction false} TrimmedNonSpace(t: seq<char>)
    ensures NonSpace(Trimmed(t)) == NonSpace(t)
  {
    if t != [] {
      var p := t[..|t| - 1];
      var c := t[|t| - 1];
      assert t == p + [c];
      TrimmedNonSpace(p);
      NonSpaceSnoc(p, c);
      NonSpaceSnoc(Trimmed(p), c);
    }
  }

  /** A non-whitespace character occurs in the trimmed string exactly when it occurs in the line. */
  lemma TrimmedMember(t: seq<char>, c: char)
    requires !IsSpace(c)
    ensures c in Trimmed(t) <==> c in t
  {
    TrimmedNonSpace(t);
    NonSpaceMember(t, c);
    NonSpaceMember(Trimmed(t), c);
  }

  /** trim() adds no control characters: a clean line stays clean. */
  lemma TrimmedClean(t: seq<char>)
    requires Clean(t)
    ensures Clean(Trimmed(t))
  {
    var r := Trimmed(t);
    forall i | 0 <= i < |r| && !IsSpace(r[i]) ensures IsGraph(r[i]) {
      TrimmedMember(t, r[i]);
    }
  }

  /**
   * The trimmed string is empty exactly when the line is all whitespace;
   * otherwise it starts with the line's first non-whitespace character.
   */
  lemma {:induction false} TrimmedHead(t: seq<char>)
    ensures Trimmed(t) == [] <==> AllSpace(t)
    ensures Trimmed(t) != [] ==> Trimmed(t)[0] == t[FirstNonSpace(t)]
  {
    if t != [] {
      var p := t[..|t| - 1];
      var c := t[|t| - 1];
      assert t == p + [c];
      TrimmedHead(p);
      TrimmedSnoc(p, c);
      assert forall i :: 0 <= i < |p| ==> t[i] == p[i];
      if AllSpace(p) {
        assert FirstNonSpace(t) >= |p|;
      } else {
        assert FirstNonSpace(p) < |p|;
        assert FirstNonSpace(t) == FirstNonSpace(p);
      }
    }
  }

  /** trim() keeps the words of the line, and its last field. */
  lemma {:induction false} TrimWords(t: seq<char>)
    ensures LastField(Trimmed(t)) == LastField(t)
    ensures Words(Trimmed(t)) == Words(t)
  {
    if t != [] {
      var p := t[..|t| - 1];
      var c := t[|t| - 1];
      assert t == p + [c];
      TrimWords(p);
      TrimmedSnoc(p, c);
      if IsSpace(c) && (p == [] || IsSpace(p[|p| - 1])) {
        LastFieldEmpty(p);
        WordsSnocSpace(p, c);
      } else if IsSpace(c) {
        SameWordsSpace(p, Trimmed(p), c);
      } else {
        SameWordsChar(p, Trimmed(p), c);
      }
    }
  }

  /** Appending a whitespace character to two lines with the same words and last field keeps them so. */
  lemma SameWordsSpace(p: seq<char>, r: seq<char>, c: char)
    requires IsSpace(c) && LastField(r) == LastField(p) && Words(r) == Words(p)
    ensures LastField(r + [c]) == LastField(p + [c]) && Words(r + [c]) == Words(p + [c])
  {
    WordsSnocSpace(p, c);
    WordsSnocSpace(r, c);
  }

  /** Appending another character to two lines with the same words and last field keeps them so. */
  lemma SameWordsChar(p: seq<char>, r: seq<char>, c: char)
    requires !IsSpace(c) && LastField(r) == LastField(p) && Words(r) == Words(p)
    ensures LastField(r + [c]) == LastField(p + [c]) && Words(r + [c]) == Words(p + [c])
  {
    LastFieldSnocWord(p, c);
    LastFieldSnocWord(r, c);
    WordsSnocWord(p, c);
    WordsSnocWord(r, c);
    WordsPrefixOfEqual(Fields(r), Fields(p));
  }

  lemma LastFieldSnocWord(p: seq<char>, c: char)
    requires !IsSpace(c)
    ensures LastField(p + [c]) == LastField(p) + [c]
  {
    FieldsSnoc(p, c);
    var f := Fields(p);
    var g := f[..|f| - 1] + [f[|f| - 1] + [c]];
    assert Fields(p + [c]) == g;
    assert g[|g| - 1] == f[|f| - 1] + [c];
  }

  /** Two field lists with the same words and the same last field agree on the words before it. */
  lemma WordsPrefixOfEqual(f: seq<seq<char>>, g: seq<seq<char>>)
    requires |f| >= 1 && |g| >= 1
    requires NonEmpty(f) == NonEmpty(g) && f[|f| - 1] == g[|g| - 1]
    ensures NonEmpty(f[..|f| - 1]) == NonEmpty(g[..|g| - 1])
  {
    var x := if f[|f| - 1] == [] then [] else [f[|f| - 1]];
    assert NonEmpty(f) == NonEmpty(f[..|f| - 1]) + x;
    assert NonEmpty(g) == NonEmpty(g[..|g| - 1]) + x;
    var a, b := NonEmpty(f[..|f| - 1]), NonEmpty(g[..|g| - 1]);
    assert |a| == |b|;
    assert forall i :: 0 <= i < |a| ==> a[i] == (a + x)[i] == (b + x)[i] == b[i];
  }

  /** A line in the shape trim() produces is left as it is. */
  lemma {:induction false} TrimmedShaped(t: seq<char>)
    requires Shaped(t)
    ensures Trimmed(t) == t
  {
    if t != [] {
      var p := t[..|t| - 1];
      var c := t[|t| - 1];
      assert t == p + [c];
      TrimmedShaped(p);
      TrimmedSnoc(p, c);
    }
  }

  /** trim() of a longer line begins with trim() of its prefix. */
  lemma {:induction false} TrimmedPrefix(p: seq<char>, q: seq<char>)
    ensures |Trimmed(p)| <= |Trimmed(p + q)| && Trimmed(p + q)[..|Trimmed(p)|] == Trimmed(p)
    decreases |q|
  {
    if q == [] {
      assert p + q == p;
    } else {
      var q' := q[..|q| - 1];
      TrimmedPrefix(p, q');
      assert p + q == (p + q') + [q[|q| - 1]];
      TrimmedSnoc(p + q', q[|q| - 1]);
    }
  }

  /** After trim() the buffer holds exactly the trimmed string as its C string. */
  lemma TrimBufferLine(s: seq<char>)
    ensures |TrimBuffer(s)| == |s|
    ensures StrLen(TrimBuffer(s)) == |Trimmed(Line(s))|
    ensures Line(TrimBuffer(s)) == Trimmed(Line(s))
  {
    var t := Trimmed(Line(s));
    TrimmedMember(Line(s), NUL);
    StrLenPadded(t, |s| - |t|);
  }
}
