/**
 * getFilename(pipe): find the first redirection marker of the line, take the
 * word after it as the file name, and blank the marker and the word out.
 */
module Redirect {
  import opened CType
  import opened Wrappers
  import opened Strings

  /** The characters at which both scans of getFilename stop. */
  predicate IsStop(c: char) {
    c == NUL || c == NEW_LINE
  }

  /** Index of the first NUL or newline, or |s|: the end of the part getFilename looks at. */
  function LineEnd(s: seq<char>): (n: nat)
    ensures n <= |s|
    ensures forall i :: 0 <= i < n ==> !IsStop(s[i])
    ensures n < |s| ==> IsStop(s[n])
  {
    if s == [] || IsStop(s[0]) then 0 else 1 + LineEnd(s[1..])
  }

  /** The first scan of getFilename, from index k: the first `pipe` before any NUL or newline. */
  function FindMarker(s: seq<char>, pipe: char, k: nat): (r: Option<nat>)
    requires IsPipe(pipe) && k <= |s|
    ensures r.Some? ==> k <= r.value < |s| && s[r.value] == pipe
    ensures r.Some? ==> forall j :: k <= j < r.value ==> s[j] != pipe && !IsStop(s[j])
    ensures r.None? ==> forall j :: k <= j < LineEnd(s) ==> s[j] != pipe
    decreases |s| - k
  {
    if k == |s| || IsStop(s[k]) then None
    else if s[k] == pipe then Some(k)
    else FindMarker(s, pipe, k + 1)
  }

  /** The whitespace-skipping phase of the second scan: stops at NUL, newline or a non-blank. */
  function SkipBlanks(s: seq<char>, k: nat): (r: nat)
    requires k <= |s|
    ensures k <= r <= |s|
    ensures forall j :: k <= j < r ==> IsSpace(s[j]) && s[j] != NEW_LINE
    ensures r < |s| ==> s[r] == NEW_LINE || !IsSpace(s[r])
    decreases |s| - k
  {
    if k == |s| || IsStop(s[k]) || !IsSpace(s[k]) then k else SkipBlanks(s, k + 1)
  }

  /** The collecting phase of the second scan: the word ends at NUL, whitespace or the end. */
  function WordEnd(s: seq<char>, k: nat): (r: nat)
    requires k <= |s|
    ensures k <= r <= |s|
    ensures forall j :: k <= j < r ==> s[j] != NUL && !IsSpace(s[j])
    ensures r < |s| ==> s[r] == NUL || IsSpace(s[r])
    decreases |s| - k
  {
    if k == |s| || IsStop(s[k]) || IsSpace(s[k]) then k else WordEnd(s, k + 1)
  }

  /** `s` with the cell `m` and the cells start..end overwritten by ' '. */
  function Blanked(s: seq<char>, m: nat, start: nat, end: nat): seq<char> {
    seq(|s|, i requires 0 <= i < |s| => if i == m || start <= i < end then ' ' else s[i])
  }

  /** The buffer getFilename leaves and the file name it returns. */
  datatype Extraction = Extraction(buffer: seq<char>, filename: Option<seq<char>>)

  function Take(s: seq<char>, pipe: char): (e: Extraction)
    requires IsPipe(pipe)
    ensures |e.buffer| == |s|
    ensures e.filename.Some? ==> e.filename.value != []
  {
    match FindMarker(s, pipe, 0)
    case None => Extraction(s, None)
    case Some(m) =>
      var start := SkipBlanks(s, m + 1);
      var end := WordEnd(s, start);
      Extraction(Blanked(s, m, start, end), if start < end then Some(s[start..end]) else None)
  }

  // ---------------------------------------------------------------------
  // Properties

  /** Blanking one more cell of the word. */
  lemma BlankedGrow(s: seq<char>, m: nat, start: nat, end: nat)
    requires start <= end < |s|
    ensures Blanked(s, m, start, end + 1) == Blanked(s, m, start, end)[end := ' ']
  {
  }

  /** With an empty word only the marker is blanked, wherever the word starts. */
  lemma BlankedEmpty(s: seq<char>, m: nat, a: nat, b: nat)
    ensures Blanked(s, m, a, a) == Blanked(s, m, b, b)
  {
  }

  /** With a marker at m, the result is fixed by the two scans that follow it. */
  lemma TakeFound(s: seq<char>, pipe: char, m: nat)
    requires IsPipe(pipe) && FindMarker(s, pipe, 0) == Some(m)
    ensures var start := SkipBlanks(s, m + 1);
      var end := WordEnd(s, start);
      Take(s, pipe) == Extraction(Blanked(s, m, start, end), if start < end then Some(s[start..end]) else None)
  {
  }

  /**
   * No marker before the first NUL or newline: no file name, and the buffer is
   * unchanged; with a marker the buffer always changes (the marker is blanked).
   */
  lemma TakeAbsent(s: seq<char>, pipe: char)
    requires IsPipe(pipe)
    ensures pipe !in s[..LineEnd(s)] <==> Take(s, pipe).buffer == s
    ensures pipe !in s[..LineEnd(s)] ==> Take(s, pipe).filename == None
  {
    var r := FindMarker(s, pipe, 0);
    if r.Some? {
      var m := r.value;
      assert forall j :: 0 <= j <= m ==> !IsStop(s[j]);
      assert m < LineEnd(s);
      assert s[..LineEnd(s)][m] == pipe;
      assert Take(s, pipe).buffer[m] == ' ';
    } else {
      assert forall j :: 0 <= j < LineEnd(s) ==> s[..LineEnd(s)][j] == s[j];
    }
  }

  /**
   * The first marker m (before any NUL or newline) becomes ' '; the file name is
   * the run of non-whitespace characters after the blanks that follow the
   * marker, up to the next whitespace, NUL or the end of the buffer; every cell
   * of that run becomes ' '; a marker followed only by blanks and a NUL, a
   * newline or the end gives no file name.
   */
  lemma TakeAt(s: seq<char>, pipe: char, m: nat)
    requires IsPipe(pipe) && m < LineEnd(s) && s[m] == pipe && pipe !in s[..m]
    ensures var e := Take(s, pipe);
      var start := SkipBlanks(s, m + 1);
      var end := WordEnd(s, start);
      && (forall j :: m < j < start ==> IsSpace(s[j]) && s[j] != NEW_LINE)
      && (forall j :: start <= j < end ==> !IsSpace(s[j]) && s[j] != NUL)
      && (end < |s| ==> s[end] == NUL || IsSpace(s[end]))
      && (e.filename == None <==> start == |s| || IsStop(s[start]))
      && (e.filename != None ==> e.filename == Some(s[start..end]))
      && |e.buffer| == |s|
      && e.buffer[m] == ' '
      && (forall j :: start <= j < end ==> e.buffer[j] == ' ')
      && (forall j :: 0 <= j < |s| && j != m && !(start <= j < end) ==> e.buffer[j] == s[j])
  {
    MarkerFirst(s, pipe, m);
  }

  /** The first scan finds the first marker. */
  lemma MarkerFirst(s: seq<char>, pipe: char, m: nat)
    requires IsPipe(pipe) && m < LineEnd(s) && s[m] == pipe && pipe !in s[..m]
    ensures FindMarker(s, pipe, 0) == Some(m)
  {
    assert forall j :: 0 <= j < m ==> s[..m][j] == s[j];
    FindMarkerAt(s, pipe, 0, m);
  }

  lemma {:induction false} FindMarkerAt(s: seq<char>, pipe: char, k: nat, m: nat)
    requires IsPipe(pipe) && k <= m < |s| && s[m] == pipe
    requires forall j :: k <= j < m ==> s[j] != pipe && !IsStop(s[j])
    ensures FindMarker(s, pipe, k) == Some(m)
    decreases m - k
  {
    if k < m { FindMarkerAt(s, pipe, k + 1, m); }
  }

  /**
   * getFilename writes only ' ', only before the first NUL, so the buffer keeps
   * its length, its C string's length and the end of the scanned part.
   */
  lemma TakeFrame(s: seq<char>, pipe: char)
    requires IsPipe(pipe)
    ensures var e := Take(s, pipe);
      && |e.buffer| == |s|
      && (forall j :: 0 <= j < |s| ==> e.buffer[j] == s[j] || (e.buffer[j] == ' ' && j < LineEnd(s)))
      && StrLen(e.buffer) == StrLen(s)
      && LineEnd(e.buffer) == LineEnd(s)
  {
    var e := Take(s, pipe);
    var r := FindMarker(s, pipe, 0);
    if r.Some? {
      var m := r.value;
      var start := SkipBlanks(s, m + 1);
      var end := WordEnd(s, start);
      assert forall j :: m <= j < end && j != m ==> !IsStop(s[j]) by {
        forall j | m < j < end ensures !IsStop(s[j]) {
          if j < start { assert IsSpace(s[j]) && s[j] != NEW_LINE; } else { assert !IsSpace(s[j]) && s[j] != NUL; }
        }
      }
      assert !IsStop(s[m]);
      var n := LineEnd(s);
      assert m < n && end <= n;
      LineEndCells(s, e.buffer);
    }
  }

  /** Writing ' ' before the end of the scanned part keeps every end marker in place. */
  lemma LineEndCells(s: seq<char>, t: seq<char>)
    requires |t| == |s|
    requires forall j :: 0 <= j < |s| ==> t[j] == s[j] || (t[j] == ' ' && j < LineEnd(s))
    ensures StrLen(t) == StrLen(s) && LineEnd(t) == LineEnd(s)
  {
    var n := LineEnd(s);
    assert forall j :: 0 <= j < n ==> !IsStop(t[j]);
    assert n < |s| ==> t[n] == s[n];
    assert forall j :: 0 <= j < |s| && (t[j] == NUL || s[j] == NUL) ==> t[j] == s[j];
    var k := StrLen(s);
    assert forall j :: 0 <= j < k ==> t[j] != NUL;
    assert k < |s| ==> t[k] == NUL;
  }

  /**
   * The redirections come out of the line: a marker followed by blanks and a
   * word, where the word ends at whitespace, NUL or the end, yields that word,
   * and the marker and the word become blanks.
   */
  lemma {:induction false} TakeWord(a: seq<char>, pipe: char, b: seq<char>, w: seq<char>, c: seq<char>)
    requires IsPipe(pipe)
    requires forall i :: 0 <= i < |a| ==> a[i] != pipe && !IsStop(a[i])
    requires forall i :: 0 <= i < |b| ==> IsSpace(b[i]) && b[i] != NEW_LINE
    requires w != [] && forall i :: 0 <= i < |w| ==> !IsSpace(w[i]) && w[i] != NUL
    requires c != [] ==> c[0] == NUL || IsSpace(c[0])
    ensures Take(a + [pipe] + b + w + c, pipe)
         == Extraction(a + [' '] + b + Fill(' ', |w|) + c, Some(w))
  {
    var s := a + [pipe] + b + w + c;
    var m := |a|;
    var start := m + 1 + |b|;
    var end := start + |w|;
    ConcatCells(a, pipe, b, w, c);
    FindMarkerAt(s, pipe, 0, m);
    SkipBlanksAt(s, m + 1, start);
    WordEndAt(s, start, end);
    assert s[start..end] == w;
    BlankedConcat(a, pipe, b, w, c);
  }

  lemma ConcatCells(a: seq<char>, pipe: char, b: seq<char>, w: seq<char>, c: seq<char>)
    ensures var s := a + [pipe] + b + w + c;
      var m, start := |a|, |a| + 1 + |b|;
      && |s| == start + |w| + |c|
      && (forall i :: 0 <= i < m ==> s[i] == a[i])
      && s[m] == pipe
      && (forall i :: m < i < start ==> s[i] == b[i - m - 1])
      && (forall i :: start <= i < start + |w| ==> s[i] == w[i - start])
      && (forall i :: start + |w| <= i < |s| ==> s[i] == c[i - start - |w|])
  {
  }

  lemma BlankedConcat(a: seq<char>, pipe: char, b: seq<char>, w: seq<char>, c: seq<char>)
    ensures var start := |a| + 1 + |b|;
      Blanked(a + [pipe] + b + w + c, |a|, start, start + |w|) == a + [' '] + b + Fill(' ', |w|) + c
  {
    var s := a + [pipe] + b + w + c;
    var m, start := |a|, |a| + 1 + |b|;
    var end := start + |w|;
    var t := a + [' '] + b + Fill(' ', |w|) + c;
    ConcatCells(a, pipe, b, w, c);
    ConcatCells(a, ' ', b, Fill(' ', |w|), c);
    assert |t| == |s|;
    forall i | 0 <= i < |s| ensures Blanked(s, m, start, end)[i] == t[i] {
    }
  }

  lemma {:induction false} SkipBlanksAt(s: seq<char>, k: nat, e: nat)
    requires k <= e <= |s|
    requires forall j :: k <= j < e ==> IsSpace(s[j]) && s[j] != NEW_LINE
    requires e < |s| ==> s[e] == NEW_LINE || !IsSpace(s[e])
    ensures SkipBlanks(s, k) == e
    decreases e - k
  {
    if k < e { SkipBlanksAt(s, k + 1, e); }
  }

  lemma {:induction false} WordEndAt(s: seq<char>, k: nat, e: nat)
    requires k <= e <= |s|
    requires forall j :: k <= j < e ==> s[j] != NUL && !IsSpace(s[j])
    requires e < |s| ==> s[e] == NUL || IsSpace(s[e])
    ensures WordEnd(s, k) == e
    decreases e - k
  {
    if k < e { WordEndAt(s, k + 1, e); }
  }
}
