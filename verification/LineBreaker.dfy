/** Breaking text into lines that fit a width: at words where possible, inside a word that is too
    wide by itself. Text is indexed by characters, and its width is any function of the text. */
module LineBreaker {
  import opened Common

  datatype WrapMode = Word | Char

  /** How wide a text is on screen, and which characters are white space. */
  datatype Font = Font(width: string -> real, space: char -> bool) {
    /** More text is never narrower. */
    ghost predicate Monotone() {
      forall s, t :: s <= t ==> width(s) <= width(t)
    }
  }

  function TrimEnd(font: Font, s: string): (t: string)
    ensures t <= s
    ensures t != [] ==> !font.space(t[|t| - 1])
    ensures forall i :: |t| <= i < |s| ==> font.space(s[i])
  {
    if s != [] && font.space(s[|s| - 1]) then TrimEnd(font, s[..|s| - 1]) else s
  }

  /** White space before a word wrap does not count. */
  function Trimmed(font: Font, mode: WrapMode, s: string): (t: string)
    ensures t <= s
  {
    if mode == Word then TrimEnd(font, s) else s
  }

  function SliceWidth(font: Font, mode: WrapMode, line: string, a: nat, b: nat): real
    requires a <= b <= |line|
  {
    font.width(Trimmed(font, mode, line[a..b]))
  }

  lemma SlicesWiden(font: Font, mode: WrapMode, line: string, a: nat, b: nat, c: nat)
    requires font.Monotone() && a <= b <= c <= |line|
    ensures SliceWidth(font, mode, line, a, b) <= SliceWidth(font, mode, line, a, c)
  {
    var s, t := line[a..b], line[a..c];
    assert s == t[..b - a];
    var s', t' := Trimmed(font, mode, s), Trimmed(font, mode, t);
    assert s' == t[..|s'|];
    assert mode == Word && s' != [] ==> !font.space(t[|s'| - 1]);
    assert |s'| <= |t'|;
    assert s' <= t';
  }

  // ----- Where a line may be wrapped -----

  ghost predicate IsWrapPoint(font: Font, mode: WrapMode, line: string, p: int) {
    p == |line| ||
    (0 < p < |line| && (mode == Word ==> font.space(line[p - 1]) && !font.space(line[p])))
  }

  ghost predicate Increasing(points: seq<nat>) {
    forall i, j :: 0 <= i < j < |points| ==> points[i] < points[j]
  }

  ghost predicate AreWrapPoints(font: Font, mode: WrapMode, line: string, points: seq<nat>) {
    && Increasing(points) && points != [] && points[|points| - 1] == |line|
    && forall p :: p in points <==> IsWrapPoint(font, mode, line, p)
  }

  lemma IncreasingAppend(points: seq<nat>, p: nat)
    requires Increasing(points) && forall q :: q in points ==> q < p
    ensures Increasing(points + [p])
  {
    forall i | 0 <= i < |points| ensures points[i] < p {
      assert points[i] in points;
    }
  }

  /** The first place from `from` on where being white space is as `wanted`, or the end. */
  method Find(font: Font, line: string, from: nat, wanted: bool) returns (i: nat)
    requires from <= |line|
    ensures from <= i <= |line| && (i < |line| ==> font.space(line[i]) == wanted)
    ensures forall k :: from <= k < i ==> font.space(line[k]) != wanted
  {
    i := from;
    while i < |line| && font.space(line[i]) != wanted
      invariant from <= i <= |line|
      invariant forall k :: from <= k < i ==> font.space(line[k]) != wanted
    {
      i := i + 1;
    }
  }

  method WrapPoints(font: Font, mode: WrapMode, line: string) returns (points: seq<nat>)
    ensures AreWrapPoints(font, mode, line, points)
  {
    points := [];
    match mode {
      case Word =>
        var wordStart := 0;
        while true
          invariant wordStart <= |line| && Increasing(points)
          invariant forall p :: p in points <==> 0 < p <= wordStart && p < |line| && IsWrapPoint(font, mode, line, p)
          decreases |line| - wordStart
        {
          var wordEnd := Find(font, line, wordStart, true);
          var next := Find(font, line, wordEnd, false);
          assert forall p :: wordStart < p < next && p < |line| ==> !IsWrapPoint(font, mode, line, p);
          if next == |line| {
            break;
          }
          assert IsWrapPoint(font, mode, line, next) by {
            assert wordEnd < next;
          }
          IncreasingAppend(points, next);
          points := points + [next];
          wordStart := next;
        }
        assert forall q :: q in points ==> q < |line|;
      case Char =>
        var charEnd := 1;
        while charEnd < |line|
          invariant 1 <= charEnd <= if line == [] then 1 else |line|
          invariant Increasing(points) && forall p :: p in points <==> 0 < p < charEnd
        {
          IncreasingAppend(points, charEnd);
          points := points + [charEnd];
          charEnd := charEnd + 1;
        }
        assert forall q :: q in points ==> q < |line|;
    }
    IncreasingAppend(points, |line|);
    points := points + [|line|];
  }

  // ----- The binary search -----

  ghost predicate CandidatesWiden(font: Font, mode: WrapMode, line: string, start: nat, points: seq<nat>) {
    forall i, j :: 0 <= i <= j < |points| && start <= points[i] <= points[j] <= |line| ==>
      SliceWidth(font, mode, line, start, points[i]) <= SliceWidth(font, mode, line, start, points[j])
  }

  /** As for any binary search, the answer means something only when the widths are in order. */
  method Search(font: Font, mode: WrapMode, line: string, start: nat, points: seq<nat>, wrapWidth: real)
    returns (found: bool, i: nat)
    requires forall k :: 0 <= k < |points| ==> start <= points[k] <= |line|
    requires Increasing(points)
    ensures i <= |points| && (found ==> i < |points| && SliceWidth(font, mode, line, start, points[i]) == wrapWidth)
    ensures CandidatesWiden(font, mode, line, start, points) ==>
              && (!found ==> forall k :: 0 <= k < i ==> SliceWidth(font, mode, line, start, points[k]) < wrapWidth)
              && (!found ==> forall k :: i <= k < |points| ==> wrapWidth < SliceWidth(font, mode, line, start, points[k]))
  {
    hide CandidatesWiden, SliceWidth;
    var lo, hi := 0, |points|;
    while lo < hi
      invariant 0 <= lo <= hi <= |points|
      invariant CandidatesWiden(font, mode, line, start, points) ==>
        && (forall k :: 0 <= k < lo ==> SliceWidth(font, mode, line, start, points[k]) < wrapWidth)
        && (forall k :: hi <= k < |points| ==> wrapWidth < SliceWidth(font, mode, line, start, points[k]))
    {
      var mid := (lo + hi) / 2;
      var w := SliceWidth(font, mode, line, start, points[mid]);
      if w == wrapWidth {
        return true, mid;
      }
      if CandidatesWiden(font, mode, line, start, points) {
        WidthsAround(font, mode, line, start, points, mid);
      }
      if w < wrapWidth {
        lo := mid + 1;
      } else {
        hi := mid;
      }
    }
    return false, lo;
  }

  lemma WidthsAround(font: Font, mode: WrapMode, line: string, start: nat, points: seq<nat>, mid: nat)
    requires forall k :: 0 <= k < |points| ==> start <= points[k] <= |line|
    requires Increasing(points) && CandidatesWiden(font, mode, line, start, points) && mid < |points|
    ensures forall k :: 0 <= k <= mid ==>
              SliceWidth(font, mode, line, start, points[k]) <= SliceWidth(font, mode, line, start, points[mid])
    ensures forall k :: mid <= k < |points| ==>
              SliceWidth(font, mode, line, start, points[mid]) <= SliceWidth(font, mode, line, start, points[k])
  {
    hide SliceWidth;
  }

  // ----- What the pieces of a line are -----

  /** A character-mode piece from `a` to `b`, as far as the end of `line` or a larger slice it is cut from. */
  ghost predicate CharPiece(font: Font, wrapWidth: real, line: string, a: nat, b: nat, end: nat)
    requires a <= b <= end <= |line|
  {
    && (font.width(line[a..b]) <= wrapWidth || b == a + 1)
    && (b < end ==> wrapWidth <= font.width(line[a..b + 1]))
  }

  /** The slice from `a` to `b` is a run of whole words that fits and takes no further word. */
  ghost predicate WordPiece(font: Font, wrapWidth: real, line: string, a: nat, b: nat)
    requires a <= b <= |line|
  {
    && (a == 0 || IsWrapPoint(font, Word, line, a)) && IsWrapPoint(font, Word, line, b)
    && SliceWidth(font, Word, line, a, b) <= wrapWidth
    && forall p :: b < p <= |line| && IsWrapPoint(font, Word, line, p) ==> wrapWidth <= SliceWidth(font, Word, line, a, p)
  }

  /** The slice from `a` to `b` is part of one word, from `u` to `v`, that is too wide by itself. */
  ghost predicate PartOfWideWord(font: Font, wrapWidth: real, line: string, a: nat, b: nat, u: nat, v: nat) {
    && u <= a <= b <= v <= |line| && u < v
    && (u == 0 || IsWrapPoint(font, Word, line, u)) && IsWrapPoint(font, Word, line, v)
    && (forall p :: u < p < v ==> !IsWrapPoint(font, Word, line, p))
    && wrapWidth < SliceWidth(font, Word, line, u, v)
    && CharPiece(font, wrapWidth, line, a, b, v)
  }

  ghost predicate WellCut(font: Font, wrapWidth: real, mode: WrapMode, line: string, a: nat, b: nat)
    requires a <= b <= |line|
  {
    match mode
    case Char => CharPiece(font, wrapWidth, line, a, b, |line|)
    case Word => WordPiece(font, wrapWidth, line, a, b) || exists u, v :: PartOfWideWord(font, wrapWidth, line, a, b, u, v)
  }

  /** The slice of `line` from `a` to `b` with its width; the only text left out is white space before a word wrap. */
  ghost predicate IsPiece(font: Font, mode: WrapMode, line: string, a: nat, b: nat, piece: (real, string)) {
    && (a < b <= |line| || (a == b == 0 && line == []))
    && piece.0 == font.width(piece.1)
    && (piece.1 == line[a..b] || (mode == Word && b < |line| && piece.1 == TrimEnd(font, line[a..b])))
  }

  /** Consecutive slices of the line, from its start up to the last cut. */
  ghost predicate Pieces(font: Font, mode: WrapMode, line: string, cuts: seq<nat>, pieces: seq<(real, string)>) {
    && |cuts| == |pieces| + 1 && cuts[0] == 0
    && forall i {:trigger pieces[i]} :: 0 <= i < |pieces| ==> IsPiece(font, mode, line, cuts[i], cuts[i + 1], pieces[i])
  }

  ghost predicate AllWellCut(font: Font, wrapWidth: real, mode: WrapMode, line: string, cuts: seq<nat>) {
    forall i :: 0 < i < |cuts| && cuts[i - 1] <= cuts[i] <= |line| ==>
      WellCut(font, wrapWidth, mode, line, cuts[i - 1], cuts[i])
  }

  /** White space before a word wrap is left out, but kept inside a word that is broken up. */
  ghost predicate IsTrimmed(font: Font, wrapWidth: real, mode: WrapMode, line: string, a: nat, b: nat, piece: (real, string)) {
    a <= b <= |line| ==>
      || piece.1 == (if b != |line| then Trimmed(font, mode, line[a..b]) else line[a..b])
      || exists u, v :: PartOfWideWord(font, wrapWidth, line, a, b, u, v)
  }

  ghost predicate AllTrimmed(font: Font, wrapWidth: real, mode: WrapMode, line: string, cuts: seq<nat>, pieces: seq<(real, string)>)
  {
    |cuts| == |pieces| + 1 &&
    forall i {:trigger pieces[i]} :: 0 <= i < |pieces| ==> IsTrimmed(font, wrapWidth, mode, line, cuts[i], cuts[i + 1], pieces[i])
  }

  lemma AddTrimmed(font: Font, wrapWidth: real, mode: WrapMode, line: string, cuts: seq<nat>, pieces: seq<(real, string)>,
                   b: nat, piece: (real, string))
    requires AllTrimmed(font, wrapWidth, mode, line, cuts, pieces)
    requires IsTrimmed(font, wrapWidth, mode, line, cuts[|pieces|], b, piece)
    ensures AllTrimmed(font, wrapWidth, mode, line, cuts + [b], pieces + [piece])
  {
    hide IsTrimmed;
  }

  /** Every piece fits once trimmed, or is a single character. */
  lemma PieceFits(font: Font, wrapWidth: real, mode: WrapMode, line: string, a: nat, b: nat)
    requires font.Monotone() && a <= b <= |line| && WellCut(font, wrapWidth, mode, line, a, b)
    ensures b == a + 1 || font.width(TrimEnd(font, line[a..b])) <= wrapWidth
  {
    assert font.width(TrimEnd(font, line[a..b])) <= font.width(line[a..b]);
  }

  lemma AddPiece(font: Font, mode: WrapMode, line: string, cuts: seq<nat>, pieces: seq<(real, string)>,
                 b: nat, piece: (real, string))
    requires Pieces(font, mode, line, cuts, pieces) && IsPiece(font, mode, line, cuts[|pieces|], b, piece)
    ensures Pieces(font, mode, line, cuts + [b], pieces + [piece])
  {
    hide IsPiece;
  }

  // ----- Choosing the end of a piece -----

  /** A slice that takes in the candidates up to and including number `k`, as the search has it, is well cut. */
  lemma ChosenIsWellCut(font: Font, wrapWidth: real, mode: WrapMode, line: string, points: seq<nat>, next: nat, a: nat, k: nat)
    requires font.Monotone() && AreWrapPoints(font, mode, line, points) && next <= k < |points|
    requires a == if next == 0 then 0 else points[next - 1]
    requires a <= points[k] <= |line| && SliceWidth(font, mode, line, a, points[k]) <= wrapWidth
    requires k + 1 < |points| ==>
               points[k] <= points[k + 1] <= |line| && wrapWidth <= SliceWidth(font, mode, line, a, points[k + 1])
    ensures WellCut(font, wrapWidth, mode, line, a, points[k])
  {
    hide Font.Monotone, SliceWidth;
    var b := points[k];
    assert b in points && (next > 0 ==> a in points);
    forall p | b < p <= |line| && IsWrapPoint(font, mode, line, p)
      ensures wrapWidth <= SliceWidth(font, mode, line, a, p)
    {
      var j :| 0 <= j < |points| && points[j] == p;
      assert j > k;
      SlicesWiden(font, mode, line, a, points[k + 1], p);
    }
    if mode == Char && b < |line| {
      assert IsWrapPoint(font, mode, line, b + 1);
      assert wrapWidth <= SliceWidth(font, mode, line, a, b + 1);
    }
    TrimmedInCharMode(font, line, a, b);
  }

  lemma TrimmedInCharMode(font: Font, line: string, a: nat, b: nat)
    requires a <= b <= |line|
    ensures SliceWidth(font, Char, line, a, b) == font.width(line[a..b])
    ensures b < |line| ==> SliceWidth(font, Char, line, a, b + 1) == font.width(line[a..b + 1])
  {
  }

  /** In character mode a character that does not fit makes a piece of its own. */
  lemma SingleCharacterIsWellCut(font: Font, wrapWidth: real, line: string, points: seq<nat>, next: nat)
    requires font.Monotone() && AreWrapPoints(font, Char, line, points) && next < |points| && line != []
    requires wrapWidth < SliceWidth(font, Char, line, if next == 0 then 0 else points[next - 1], points[next])
    ensures WellCut(font, wrapWidth, Char, line, if next == 0 then 0 else points[next - 1], points[next])
  {
    var a, b := if next == 0 then 0 else points[next - 1], points[next];
    assert b in points && (next > 0 ==> a in points);
    assert a < |line|;
    assert IsWrapPoint(font, Char, line, a + 1);
    var j :| 0 <= j < |points| && points[j] == a + 1;
    assert j == next;
    if b < |line| {
      SlicesWiden(font, Char, line, a, b, b + 1);
    }
  }

  lemma AfterPoint(font: Font, mode: WrapMode, line: string, points: seq<nat>, next: nat)
    requires AreWrapPoints(font, mode, line, points) && next <= |points|
    ensures next > 0 ==> forall k :: next <= k < |points| ==> points[next - 1] < points[k]
    ensures Increasing(points[next..])
    ensures forall j, k :: 0 <= j <= k < |points| ==> points[j] <= points[k]
    ensures forall k :: 0 <= k < |points[next..]| ==> points[next..][k] == points[next + k]
  {
  }

  lemma PointsAreInLine(font: Font, mode: WrapMode, line: string, points: seq<nat>)
    requires AreWrapPoints(font, mode, line, points)
    ensures forall k :: 0 <= k < |points| ==> points[k] <= |line| && (line != [] ==> points[k] > 0)
  {
    forall k | 0 <= k < |points| ensures IsWrapPoint(font, mode, line, points[k]) {
      assert points[k] in points;
    }
  }

  lemma CandidatesDoWiden(font: Font, mode: WrapMode, line: string, start: nat, points: seq<nat>)
    requires font.Monotone()
    ensures CandidatesWiden(font, mode, line, start, points)
  {
    forall i, j | 0 <= i <= j < |points| && start <= points[i] <= points[j] <= |line|
      ensures SliceWidth(font, mode, line, start, points[i]) <= SliceWidth(font, mode, line, start, points[j])
    {
      SlicesWiden(font, mode, line, start, points[i], points[j]);
    }
  }

  /** What the answer of the search over the candidates from number `next` on is good for. */
  lemma ChoiceIsRight(font: Font, wrapWidth: real, mode: WrapMode, line: string, points: seq<nat>, next: nat, start: nat,
                      found: bool, i: nat)
    requires font.Monotone() && AreWrapPoints(font, mode, line, points) && next < |points| && i <= |points| - next
    requires start == if next == 0 then 0 else points[next - 1]
    requires forall k :: next <= k < |points| ==> start <= points[k] <= |line|
    requires found ==> next + i < |points| && SliceWidth(font, mode, line, start, points[next + i]) == wrapWidth
    requires !found && i > 0 ==> SliceWidth(font, mode, line, start, points[next + i - 1]) < wrapWidth
    requires !found && next + i < |points| ==> wrapWidth < SliceWidth(font, mode, line, start, points[next + i])
    ensures found ==> WellCut(font, wrapWidth, mode, line, start, points[next + i])
    ensures !found && i > 0 ==> WellCut(font, wrapWidth, mode, line, start, points[next + i - 1])
    ensures found || i > 0 ==> SliceWidth(font, mode, line, start, points[next]) <= wrapWidth
  {
    hide WellCut, SliceWidth, Font.Monotone, AreWrapPoints;
    AfterPoint(font, mode, line, points, next);
    if found || i > 0 {
      var k := if found then next + i else next + i - 1;
      SlicesWiden(font, mode, line, start, points[next], points[k]);
      if k + 1 < |points| {
        SlicesWiden(font, mode, line, start, points[k], points[k + 1]);
      }
      ChosenIsWellCut(font, wrapWidth, mode, line, points, next, start, k);
    }
  }

  /** The wrap point that ends the next piece, or none when not even the first one fits. */
  method Choose(font: Font, wrapWidth: real, mode: WrapMode, line: string, points: seq<nat>, next: nat, start: nat)
    returns (choice: Option<nat>)
    requires AreWrapPoints(font, mode, line, points) && next < |points|
    requires start == if next == 0 then 0 else points[next - 1]
    ensures start <= points[next] <= |line|
    ensures choice.Some? ==> next <= choice.value < |points| && start <= points[choice.value] <= |line|
    ensures font.Monotone() && choice.Some? ==> WellCut(font, wrapWidth, mode, line, start, points[choice.value])
    ensures font.Monotone() ==> (choice == None <==> wrapWidth < SliceWidth(font, mode, line, start, points[next]))
  {
    hide WellCut, SliceWidth, Font.Monotone, AreWrapPoints, CandidatesWiden, Increasing;
    AfterPoint(font, mode, line, points, next);
    PointsAreInLine(font, mode, line, points);
    var candidates := points[next..];
    var found, i := Search(font, mode, line, start, candidates, wrapWidth);
    if font.Monotone() {
      CandidatesDoWiden(font, mode, line, start, candidates);
      assert i < |candidates| ==> candidates[i] == points[next + i];
      assert i > 0 ==> candidates[i - 1] == points[next + i - 1];
      ChoiceIsRight(font, wrapWidth, mode, line, points, next, start, found, i);
    }
    if found {
      choice := Some(next + i);
    } else if i > 0 {
      choice := Some(next + i - 1);
    } else {
      choice := None;
    }
  }

  // ----- Breaking a word that is too wide -----

  function Shifted(cuts: seq<nat>, offset: nat): (r: seq<nat>)
    ensures |r| == |cuts| && forall i :: 0 <= i < |cuts| ==> r[i] == offset + cuts[i]
  {
    seq(|cuts|, i requires 0 <= i < |cuts| => offset + cuts[i])
  }

  lemma SliceOfSlice(line: string, u: nat, v: nat, a: nat, b: nat)
    requires u <= v <= |line| && a <= b <= v - u
    ensures line[u..v][a..b] == line[u + a..u + b]
  {
    var inner, outer := line[u..v][a..b], line[u + a..u + b];
    forall k | 0 <= k < b - a
      ensures inner[k] == outer[k]
    {
      assert inner[k] == line[u..v][a + k] == line[u + (a + k)];
    }
    assert |inner| == |outer|;
  }

  /** The character-mode pieces of a slice are pieces of the whole line. */
  lemma EmbedPieces(font: Font, mode: WrapMode, line: string, cuts: seq<nat>, pieces: seq<(real, string)>,
                    u: nat, v: nat, wordCuts: seq<nat>, wordPieces: seq<(real, string)>)
    requires Pieces(font, mode, line, cuts, pieces) && cuts[|pieces|] == u < v <= |line|
    requires Pieces(font, Char, line[u..v], wordCuts, wordPieces) && wordCuts[|wordPieces|] == v - u
    ensures Pieces(font, mode, line, cuts + Shifted(wordCuts[1..], u), pieces + wordPieces)
    ensures (cuts + Shifted(wordCuts[1..], u))[|pieces + wordPieces|] == v
  {
    var cuts', pieces' := cuts + Shifted(wordCuts[1..], u), pieces + wordPieces;
    forall i | 0 <= i < |pieces'| ensures IsPiece(font, mode, line, cuts'[i], cuts'[i + 1], pieces'[i]) {
      if i < |pieces| {
        assert IsPiece(font, mode, line, cuts[i], cuts[i + 1], pieces[i]);
      } else {
        var k := i - |pieces|;
        assert IsPiece(font, Char, line[u..v], wordCuts[k], wordCuts[k + 1], wordPieces[k]);
        assert cuts'[i] == u + wordCuts[k] && cuts'[i + 1] == u + wordCuts[k + 1];
        SliceOfSlice(line, u, v, wordCuts[k], wordCuts[k + 1]);
      }
    }
  }

  lemma EmbedCharPiece(font: Font, wrapWidth: real, line: string, u: nat, v: nat, a: nat, b: nat)
    requires u < v <= |line| && a <= b <= v - u && CharPiece(font, wrapWidth, line[u..v], a, b, v - u)
    ensures CharPiece(font, wrapWidth, line, u + a, u + b, v)
  {
    SliceOfSlice(line, u, v, a, b);
    if b < v - u {
      SliceOfSlice(line, u, v, a, b + 1);
    }
  }

  /** A piece of a word that is too wide is part of a wide word of the line. */
  lemma EmbedPart(font: Font, wrapWidth: real, line: string, u: nat, v: nat, a: nat, b: nat)
    requires u < v <= |line| && a <= b <= v - u && WellCut(font, wrapWidth, Char, line[u..v], a, b)
    requires (u == 0 || IsWrapPoint(font, Word, line, u)) && IsWrapPoint(font, Word, line, v)
    requires forall p :: u < p < v ==> !IsWrapPoint(font, Word, line, p)
    requires wrapWidth < SliceWidth(font, Word, line, u, v)
    ensures PartOfWideWord(font, wrapWidth, line, u + a, u + b, u, v)
  {
    hide CharPiece, IsWrapPoint, SliceWidth;
    EmbedCharPiece(font, wrapWidth, line, u, v, a, b);
  }

  lemma EmbedTrimmed(font: Font, wrapWidth: real, line: string, cuts: seq<nat>, pieces: seq<(real, string)>,
                     u: nat, v: nat, wordCuts: seq<nat>, wordPieces: seq<(real, string)>)
    requires AllTrimmed(font, wrapWidth, Word, line, cuts, pieces) && cuts[|pieces|] == u < v <= |line|
    requires |wordCuts| == |wordPieces| + 1 && wordCuts[0] == 0 && forall i :: 0 <= i < |wordCuts| ==> wordCuts[i] <= v - u
    requires AllWellCut(font, wrapWidth, Char, line[u..v], wordCuts)
    requires (u == 0 || IsWrapPoint(font, Word, line, u)) && IsWrapPoint(font, Word, line, v)
    requires forall p :: u < p < v ==> !IsWrapPoint(font, Word, line, p)
    requires wrapWidth < SliceWidth(font, Word, line, u, v)
    ensures AllTrimmed(font, wrapWidth, Word, line, cuts + Shifted(wordCuts[1..], u), pieces + wordPieces)
  {
    hide WellCut, PartOfWideWord, IsWrapPoint, SliceWidth, Trimmed;
    var cuts', pieces' := cuts + Shifted(wordCuts[1..], u), pieces + wordPieces;
    forall i | 0 <= i < |pieces'| ensures IsTrimmed(font, wrapWidth, Word, line, cuts'[i], cuts'[i + 1], pieces'[i]) {
      if i < |pieces| {
        assert IsTrimmed(font, wrapWidth, Word, line, cuts[i], cuts[i + 1], pieces[i]);
      } else {
        var k := i - |pieces|;
        assert cuts'[i] == u + wordCuts[k] && cuts'[i + 1] == u + wordCuts[k + 1];
        if wordCuts[k] <= wordCuts[k + 1] {
          EmbedPart(font, wrapWidth, line, u, v, wordCuts[k], wordCuts[k + 1]);
        }
      }
    }
  }

  lemma EmbedWellCut(font: Font, wrapWidth: real, line: string, cuts: seq<nat>, u: nat, v: nat, wordCuts: seq<nat>)
    requires cuts != [] && cuts[|cuts| - 1] == u < v <= |line| && AllWellCut(font, wrapWidth, Word, line, cuts)
    requires |wordCuts| > 1 && wordCuts[0] == 0 && forall i :: 0 <= i < |wordCuts| ==> wordCuts[i] <= v - u
    requires AllWellCut(font, wrapWidth, Char, line[u..v], wordCuts)
    requires (u == 0 || IsWrapPoint(font, Word, line, u)) && IsWrapPoint(font, Word, line, v)
    requires forall p :: u < p < v ==> !IsWrapPoint(font, Word, line, p)
    requires wrapWidth < SliceWidth(font, Word, line, u, v)
    ensures AllWellCut(font, wrapWidth, Word, line, cuts + Shifted(wordCuts[1..], u))
  {
    hide CharPiece, WordPiece, IsWrapPoint, SliceWidth;
    var cuts' := cuts + Shifted(wordCuts[1..], u);
    forall i | 0 < i < |cuts'| && cuts'[i - 1] <= cuts'[i] <= |line|
      ensures WellCut(font, wrapWidth, Word, line, cuts'[i - 1], cuts'[i])
    {
      if i < |cuts| {
        assert WellCut(font, wrapWidth, Word, line, cuts[i - 1], cuts[i]);
      } else {
        var k := i - |cuts| + 1;
        assert cuts'[i - 1] == u + wordCuts[k - 1] && cuts'[i] == u + wordCuts[k];
        assert WellCut(font, wrapWidth, Char, line[u..v], wordCuts[k - 1], wordCuts[k]);
        EmbedPart(font, wrapWidth, line, u, v, wordCuts[k - 1], wordCuts[k]);
        assert PartOfWideWord(font, wrapWidth, line, cuts'[i - 1], cuts'[i], u, v);
      }
    }
  }

  // ----- Lines -----

  /** A line with its terminator taken off: the newline, and a carriage return right before it. */
  function Chopped(line: string): string {
    if line != [] && line[|line| - 1] == '\r' then line[..|line| - 1] else line
  }

  /** The lines of a text; an empty last line does not count. */
  function Lines(text: string): (lines: seq<string>)
    ensures forall i :: 0 <= i < |lines| ==> '\n' !in lines[i]
    ensures '\n' !in text && text != [] ==> lines == [text]
  {
    if text == [] then []
    else
      var n := LineEnd(text);
      if n == |text| then [text] else [Chopped(text[..n])] + Lines(text[n + 1..])
  }

  function LineEnd(text: string): (n: nat)
    ensures n <= |text| && '\n' !in text[..n] && (n < |text| ==> text[n] == '\n')
  {
    if text == [] || text[0] == '\n' then 0
    else
      var n := 1 + LineEnd(text[1..]);
      assert text[..n] == [text[0]] + text[1..][..n - 1];
      n
  }

  /** Lines, each followed by what ends it. */
  function Rejoined(lines: seq<string>, ends: seq<string>): string
    requires |lines| == |ends|
  {
    if lines == [] then "" else lines[0] + ends[0] + Rejoined(lines[1..], ends[1..])
  }

  /** A newline, or a carriage return and a newline, ends a line; a carriage return right before the newline is part of the
      end. The end of the text ends a last line that is not empty. */
  predicate IsLineEnd(line: string, end: string, isLast: bool) {
    || (end == "\n" && (line != [] ==> line[|line| - 1] != '\r'))
    || end == "\r\n"
    || (end == "" && isLast && line != [])
  }

  predicate AreEnded(text: string, lines: seq<string>, ends: seq<string>) {
    && |lines| == |ends| && text == Rejoined(lines, ends)
    && forall i :: 0 <= i < |lines| ==> '\n' !in lines[i] && IsLineEnd(lines[i], ends[i], i == |lines| - 1)
  }

  /** The text is made up of these lines and their ends, and of nothing else. */
  ghost predicate AreLinesOf(text: string, lines: seq<string>) {
    exists ends :: AreEnded(text, lines, ends)
  }

  lemma {:induction false} LinesAreEnded(text: string) returns (ends: seq<string>)
    ensures AreEnded(text, Lines(text), ends)
  {
    hide LineEnd, AreEnded, Chopped, IsLineEnd;
    if text == [] {
      ends := [];
      NothingEnded();
    } else {
      var n := LineEnd(text);
      if n == |text| {
        ends := [""];
        assert text[..n] == text;
        LastEnded(text);
      } else {
        var end := ChoppedEnds(text[..n]);
        var rest := LinesAreEnded(text[n + 1..]);
        ends := [end] + rest;
        assert text == text[..n] + "\n" + text[n + 1..];
        AddEnded(Chopped(text[..n]), end, text[n + 1..], Lines(text[n + 1..]), rest);
      }
    }
  }

  lemma NothingEnded()
    ensures AreEnded([], [], [])
  {
  }

  lemma LastEnded(text: string)
    requires '\n' !in text && text != []
    ensures AreEnded(text, [text], [""])
  {
    assert [text][1..] == [] && [""][1..] == [];
    assert text + "" + Rejoined([], []) == text;
  }

  lemma ChoppedEnds(front: string) returns (end: string)
    requires '\n' !in front
    ensures Chopped(front) + end == front + "\n" && '\n' !in Chopped(front) && IsLineEnd(Chopped(front), end, false)
  {
    end := if Chopped(front) == front then "\n" else "\r\n";
    if Chopped(front) != front {
      assert front == Chopped(front) + "\r";
    }
  }

  lemma AddEnded(line: string, end: string, text: string, lines: seq<string>, ends: seq<string>)
    requires AreEnded(text, lines, ends) && '\n' !in line && IsLineEnd(line, end, false)
    ensures AreEnded(line + end + text, [line] + lines, [end] + ends)
  {
    assert ([line] + lines)[1..] == lines && ([end] + ends)[1..] == ends;
  }

  /** These lines are the only ones that make up the text. */
  lemma {:induction false} LinesAreUnique(text: string, lines: seq<string>)
    requires AreLinesOf(text, lines)
    ensures lines == Lines(text)
  {
    var ends :| AreEnded(text, lines, ends);
    EndedLinesAreUnique(text, lines, ends);
  }

  lemma {:induction false} EndedLinesAreUnique(text: string, lines: seq<string>, ends: seq<string>)
    requires AreEnded(text, lines, ends)
    ensures lines == Lines(text)
    decreases |lines|
  {
    if lines == [] {
    } else {
      var line, end, rest := lines[0], ends[0], Rejoined(lines[1..], ends[1..]);
      assert IsLineEnd(line, end, true);
      RestEnded(text, lines, ends);
      hide AreEnded, IsLineEnd, Rejoined, LineEnd, Chopped;
      assert lines == [line] + lines[1..];
      if end == "" {
        LastUnended(text, lines, ends);
      } else {
        SplitFirst(line, end, rest);
        EndedLinesAreUnique(rest, lines[1..], ends[1..]);
      }
    }
  }

  lemma RestEnded(text: string, lines: seq<string>, ends: seq<string>)
    requires AreEnded(text, lines, ends) && lines != []
    ensures '\n' !in lines[0] && text == lines[0] + ends[0] + Rejoined(lines[1..], ends[1..])
    ensures AreEnded(Rejoined(lines[1..], ends[1..]), lines[1..], ends[1..])
  {
    forall i | 0 <= i < |lines| - 1 ensures '\n' !in lines[1..][i] && IsLineEnd(lines[1..][i], ends[1..][i], i == |lines| - 2) {
      assert IsLineEnd(lines[i + 1], ends[i + 1], i + 1 == |lines| - 1);
    }
  }

  lemma LastUnended(text: string, lines: seq<string>, ends: seq<string>)
    requires AreEnded(text, lines, ends) && lines != [] && ends[0] == ""
    ensures lines == Lines(text)
  {
    assert IsLineEnd(lines[0], ends[0], |lines| == 1);
    assert lines[1..] == [] && ends[1..] == [];
    assert Rejoined(lines[1..], ends[1..]) == [];
    assert text == lines[0] && lines == [lines[0]] && text != [];
  }

  lemma SplitFirst(line: string, end: string, rest: string)
    requires '\n' !in line && end != "" && IsLineEnd(line, end, true)
    ensures Lines(line + end + rest) == [line] + Lines(rest)
  {
    var text, n := line + end + rest, |line| + |end| - 1;
    var front := text[..n];
    assert front == line + end[..|end| - 1] && text[n] == '\n' && text[n + 1..] == rest;
    assert '\n' !in front && Chopped(front) == line;
    FirstLineEnd(text, n);
  }

  lemma FirstLineEnd(text: string, n: nat)
    requires n < |text| && text[n] == '\n' && '\n' !in text[..n]
    ensures LineEnd(text) == n
  {
    var m := LineEnd(text);
    hide LineEnd;
    NotInFront(text, n);
    NotInFront(text, m);
  }

  lemma NotInFront(text: string, n: nat)
    requires n <= |text| && '\n' !in text[..n]
    ensures forall k :: 0 <= k < n ==> text[k] != '\n'
  {
    forall k | 0 <= k < n ensures text[k] != '\n' {
      assert text[k] in text[..n];
    }
  }

  function Newlines(text: string): nat {
    if text == [] then 0 else Newlines(text[..|text| - 1]) + if text[|text| - 1] == '\n' then 1 else 0
  }

  lemma {:induction false} NewlinesOfBoth(a: string, b: string)
    ensures Newlines(a + b) == Newlines(a) + Newlines(b)
  {
    if b == [] {
      assert a + b == a;
    } else {
      assert (a + b)[..|a + b| - 1] == a + b[..|b| - 1];
      NewlinesOfBoth(a, b[..|b| - 1]);
    }
  }

  lemma {:induction false} NoNewlines(text: string)
    requires '\n' !in text
    ensures Newlines(text) == 0
  {
    if text != [] {
      NoNewlines(text[..|text| - 1]);
    }
  }

  /** As many lines as newlines, and one more if the text goes on after the last of them. */
  lemma {:induction false} LinesAreCounted(text: string)
    ensures |Lines(text)| == Newlines(text) + if text != [] && text[|text| - 1] != '\n' then 1 else 0
    decreases |text|
  {
    hide LineEnd;
    if text != [] {
      var n := LineEnd(text);
      if n == |text| {
        assert text[..n] == text;
        NoNewlines(text);
      } else {
        NoNewlines(text[..n]);
        LinesAreCounted(text[n + 1..]);
        assert text == text[..n + 1] + text[n + 1..];
        assert text[..n + 1][..n] == text[..n];
        NewlinesOfBoth(text[..n + 1], text[n + 1..]);
      }
    }
  }

  // ----- The breaker -----

  /** The pieces make up the line, and under a monotone width each of them is well cut. An empty line that fits is a
      piece of its own. */
  ghost predicate Broken(font: Font, wrapWidth: real, mode: WrapMode, line: string, cuts: seq<nat>, pieces: seq<(real, string)>) {
    && Pieces(font, mode, line, cuts, pieces) && cuts[|pieces|] == |line|
    && (font.Monotone() && (line != [] || font.width([]) <= wrapWidth) ==>
          && AllWellCut(font, wrapWidth, mode, line, cuts) && pieces != []
          && AllTrimmed(font, wrapWidth, mode, line, cuts, pieces))
  }

  ghost function Concat(parts: seq<seq<(real, string)>>): seq<(real, string)> {
    if parts == [] then [] else Concat(parts[..|parts| - 1]) + parts[|parts| - 1]
  }

  datatype Wrap = NoWrap | WrapAt(width: real, mode: WrapMode)

  ghost predicate LineBroken(font: Font, wrap: Wrap, line: string, cuts: seq<nat>, part: seq<(real, string)>) {
    match wrap
    case NoWrap => part == [(font.width(line), line)]
    case WrapAt(width, mode) => Broken(font, width, mode, line, cuts, part)
  }

  /** The pieces are those of the lines of the text, one line after the other. */
  ghost predicate IsBroken(font: Font, text: string, wrap: Wrap, lines: seq<(real, string)>) {
    exists all, parts, cuts :: AreLinesOf(text, all) && AllBroken(font, wrap, all, parts, cuts) && lines == Concat(parts)
  }

  ghost predicate AllBroken(font: Font, wrap: Wrap, all: seq<string>, parts: seq<seq<(real, string)>>, cuts: seq<seq<nat>>) {
    |parts| == |cuts| == |all| && forall i :: 0 <= i < |parts| ==> LineBroken(font, wrap, all[i], cuts[i], parts[i])
  }

  /** Line by line; `parts` and `cuts` say which piece comes from where. */
  method BreakLines(font: Font, text: string, wrap: Wrap)
    returns (lines: seq<(real, string)>, ghost parts: seq<seq<(real, string)>>, ghost cuts: seq<seq<nat>>)
    ensures IsBroken(font, text, wrap, lines)
    ensures AreLinesOf(text, Lines(text)) && |parts| == Newlines(text) + if text != [] && text[|text| - 1] != '\n' then 1 else 0
    ensures AllBroken(font, wrap, Lines(text), parts, cuts) && lines == Concat(parts)
    decreases wrap.WrapAt? && wrap.mode == Word, 1
  {
    hide LineEnd, Broken, IsBroken, Lines, LineBroken, Concat;
    NoLines();
    lines, parts, cuts := [], [], [];
    var all := Lines(text);
    for i := 0 to |all|
      invariant |parts| == |cuts| == i && lines == Concat(parts)
      invariant forall k :: 0 <= k < i ==> LineBroken(font, wrap, all[k], cuts[k], parts[k])
    {
      var pieces: seq<(real, string)> := [(font.width(all[i]), all[i])];
      ghost var c: seq<nat> := [];
      match wrap {
        case NoWrap =>
        case WrapAt(width, mode) =>
          pieces, c := BreakLine(font, width, mode, all[i]);
      }
      LineIsBroken(font, wrap, all[i], c, pieces);
      OneMoreLine(font, wrap, all, parts, cuts, c, pieces);
      lines := lines + pieces;
      parts := parts + [pieces];
      cuts := cuts + [c];
    }
    LinesAreCounted(text);
    AreLinesBroken(font, text, wrap, lines, parts, cuts);
  }

  lemma NoLines()
    ensures Concat([]) == []
  {
  }

  lemma LineIsBroken(font: Font, wrap: Wrap, line: string, cuts: seq<nat>, pieces: seq<(real, string)>)
    requires wrap.WrapAt? ==> Broken(font, wrap.width, wrap.mode, line, cuts, pieces)
    requires wrap.NoWrap? ==> pieces == [(font.width(line), line)]
    ensures LineBroken(font, wrap, line, cuts, pieces)
  {
  }

  lemma OneMoreLine(font: Font, wrap: Wrap, all: seq<string>, parts: seq<seq<(real, string)>>, cuts: seq<seq<nat>>,
                    c: seq<nat>, pieces: seq<(real, string)>)
    requires |parts| == |cuts| < |all| && forall k :: 0 <= k < |parts| ==> LineBroken(font, wrap, all[k], cuts[k], parts[k])
    requires LineBroken(font, wrap, all[|parts|], c, pieces)
    ensures Concat(parts + [pieces]) == Concat(parts) + pieces
    ensures forall k :: 0 <= k < |parts| + 1 ==> LineBroken(font, wrap, all[k], (cuts + [c])[k], (parts + [pieces])[k])
  {
    hide LineBroken;
    assert (parts + [pieces])[..|parts|] == parts;
  }

  lemma AreLinesBroken(font: Font, text: string, wrap: Wrap, lines: seq<(real, string)>,
                       parts: seq<seq<(real, string)>>, cuts: seq<seq<nat>>)
    requires AllBroken(font, wrap, Lines(text), parts, cuts) && lines == Concat(parts)
    ensures AreLinesOf(text, Lines(text)) && IsBroken(font, text, wrap, lines)
  {
    hide AllBroken, Lines, Concat, AreEnded;
    var ends := LinesAreEnded(text);
  }

  /** Where the next piece starts, once the first `next` wrap points are behind. */
  function StartOf(points: seq<nat>, next: nat): nat
    requires next <= |points|
  {
    if next == 0 then 0 else points[next - 1]
  }

  /** What holds between two turns of the loop. */
  ghost predicate SoFar(font: Font, wrapWidth: real, mode: WrapMode, line: string, points: seq<nat>, next: nat,
                        cuts: seq<nat>, pieces: seq<(real, string)>)
  {
    && next <= |points|
    && Pieces(font, mode, line, cuts, pieces) && cuts[|pieces|] == StartOf(points, next)
    && (font.Monotone() && (line != [] || font.width([]) <= wrapWidth) ==>
          && AllWellCut(font, wrapWidth, mode, line, cuts) && (next > 0 ==> pieces != [])
          && AllTrimmed(font, wrapWidth, mode, line, cuts, pieces))
  }

  lemma PiecesAndCuts(font: Font, mode: WrapMode, line: string, cuts: seq<nat>, pieces: seq<(real, string)>)
    requires Pieces(font, mode, line, cuts, pieces)
    ensures |cuts| == |pieces| + 1
  {
  }

  lemma SliceIsPiece(font: Font, mode: WrapMode, line: string, a: nat, b: nat, piece: (real, string))
    requires a < b <= |line| || (a == b == 0 && line == [])
    requires var text := if b != |line| then Trimmed(font, mode, line[a..b]) else line[a..b];
             piece == (font.width(text), text)
    ensures IsPiece(font, mode, line, a, b, piece)
  {
  }

  lemma SliceIsTrimmed(font: Font, wrapWidth: real, mode: WrapMode, line: string, a: nat, b: nat, piece: (real, string))
    requires a <= b <= |line|
    requires piece.1 == if b != |line| then Trimmed(font, mode, line[a..b]) else line[a..b]
    ensures IsTrimmed(font, wrapWidth, mode, line, a, b, piece)
  {
  }

  lemma AddCut(font: Font, wrapWidth: real, mode: WrapMode, line: string, cuts: seq<nat>, b: nat)
    requires cuts != [] && cuts[|cuts| - 1] <= b <= |line|
    requires AllWellCut(font, wrapWidth, mode, line, cuts) && WellCut(font, wrapWidth, mode, line, cuts[|cuts| - 1], b)
    ensures AllWellCut(font, wrapWidth, mode, line, cuts + [b])
  {
    hide WellCut;
  }

  lemma TakePiece(font: Font, wrapWidth: real, mode: WrapMode, line: string, points: seq<nat>, next: nat,
                  cuts: seq<nat>, pieces: seq<(real, string)>, index: nat, piece: (real, string))
    requires AreWrapPoints(font, mode, line, points) && next <= index < |points|
    requires SoFar(font, wrapWidth, mode, line, points, next, cuts, pieces)
    requires StartOf(points, next) <= points[index] <= |line|
    requires font.Monotone() && (line != [] || font.width([]) <= wrapWidth) ==>
               WellCut(font, wrapWidth, mode, line, StartOf(points, next), points[index])
    requires var slice := line[StartOf(points, next)..points[index]];
             var text := if points[index] != |line| then Trimmed(font, mode, slice) else slice;
             piece == (font.width(text), text)
    ensures SoFar(font, wrapWidth, mode, line, points, index + 1, cuts + [points[index]], pieces + [piece])
  {
    hide Font.Monotone, WellCut, Trimmed, TrimEnd, IsPiece, AreWrapPoints, AllWellCut, AllTrimmed, IsTrimmed, Pieces;
    var a, b := StartOf(points, next), points[index];
    AfterPoint(font, mode, line, points, next);
    PointsAreInLine(font, mode, line, points);
    SliceIsPiece(font, mode, line, a, b, piece);
    assert |cuts| == |pieces| + 1 && cuts[|pieces|] == a by {
      PiecesAndCuts(font, mode, line, cuts, pieces);
    }
    AddPiece(font, mode, line, cuts, pieces, b, piece);
    if font.Monotone() && (line != [] || font.width([]) <= wrapWidth) {
      AddCut(font, wrapWidth, mode, line, cuts, b);
      SliceIsTrimmed(font, wrapWidth, mode, line, a, b, piece);
      AddTrimmed(font, wrapWidth, mode, line, cuts, pieces, b, piece);
    }
  }

  lemma TakeBrokenWord(font: Font, wrapWidth: real, line: string, points: seq<nat>, next: nat, cuts: seq<nat>,
                       pieces: seq<(real, string)>, wordCuts: seq<nat>, broken: seq<(real, string)>)
    requires AreWrapPoints(font, Word, line, points) && next < |points| && line != []
    requires SoFar(font, wrapWidth, Word, line, points, next, cuts, pieces)
    requires StartOf(points, next) <= points[next] <= |line|
    requires font.Monotone() ==> wrapWidth < SliceWidth(font, Word, line, StartOf(points, next), points[next])
    requires Broken(font, wrapWidth, Char, line[StartOf(points, next)..points[next]], wordCuts, broken)
    ensures wordCuts != []
    ensures SoFar(font, wrapWidth, Word, line, points, next + 1,
                  cuts + Shifted(wordCuts[1..], StartOf(points, next)), pieces + broken)
  {
    hide Font.Monotone, WellCut, SliceWidth;
    var u, v := StartOf(points, next), points[next];
    AfterPoint(font, Word, line, points, next);
    PointsAreInLine(font, Word, line, points);
    EmbedPieces(font, Word, line, cuts, pieces, u, v, wordCuts, broken);
    if font.Monotone() {
      assert v in points && (next > 0 ==> u in points);
      NoPointBetween(font, Word, line, points, next);
      CutsAreInLine(font, Char, line[u..v], wordCuts, broken);
      EmbedWellCut(font, wrapWidth, line, cuts, u, v, wordCuts);
      EmbedTrimmed(font, wrapWidth, line, cuts, pieces, u, v, wordCuts, broken);
    }
  }

  lemma NoPointBetween(font: Font, mode: WrapMode, line: string, points: seq<nat>, next: nat)
    requires AreWrapPoints(font, mode, line, points) && next < |points|
    ensures forall p :: StartOf(points, next) < p < points[next] ==> !IsWrapPoint(font, mode, line, p)
  {
    AfterPoint(font, mode, line, points, next);
    forall j | 0 <= j < |points| ensures points[j] <= StartOf(points, next) || points[next] <= points[j] {
      assert j >= next || (next > 0 && points[j] <= points[next - 1]);
    }
  }

  lemma CutsAreInLine(font: Font, mode: WrapMode, line: string, cuts: seq<nat>, pieces: seq<(real, string)>)
    requires Pieces(font, mode, line, cuts, pieces) && cuts[|pieces|] == |line|
    ensures forall i :: 0 <= i < |cuts| ==> cuts[i] <= |line|
  {
    forall i | 0 <= i < |pieces| ensures cuts[i] <= |line| {
      assert IsPiece(font, mode, line, cuts[i], cuts[i + 1], pieces[i]);
    }
  }

  method BreakLine(font: Font, wrapWidth: real, mode: WrapMode, line: string)
    returns (pieces: seq<(real, string)>, ghost cuts: seq<nat>)
    requires '\n' !in line
    ensures Broken(font, wrapWidth, mode, line, cuts, pieces)
    decreases mode == Word, 0
  {
    hide Font.Monotone, WellCut, SliceWidth, AreWrapPoints, Pieces, AllWellCut, AllTrimmed, Lines, Trimmed;
    var points := WrapPoints(font, mode, line);
    pieces, cuts := [], [0];
    NothingTaken(font, wrapWidth, mode, line, points);
    var next, start := 0, 0;
    while next < |points|
      invariant SoFar(font, wrapWidth, mode, line, points, next, cuts, pieces) && start == StartOf(points, next)
    {
      var choice := Choose(font, wrapWidth, mode, line, points, next, start);
      var index := next;
      if choice.Some? {
        index := choice.value;
      } else if mode == Word {
        var wordEnd := points[next];
        var word := line[start..wordEnd];
        var broken, parts, wordCuts := BreakLines(font, word, WrapAt(wrapWidth, Char));
        if word == [] {
          EmptyWordIsDropped(font, wrapWidth, line, points, next, cuts, pieces, broken, parts);
        } else {
          assert Concat(parts) == parts[0];
          TakeBrokenWord(font, wrapWidth, line, points, next, cuts, pieces, wordCuts[0], broken);
          cuts := cuts + Shifted(wordCuts[0][1..], start);
        }
        pieces := pieces + broken;
        next := next + 1;
        start := wordEnd;
        continue;
      } else {
        CharacterIsTaken(font, wrapWidth, line, points, next);
      }
      var end := points[index];
      var slice := line[start..end];
      var trimmed := if end != |line| then Trimmed(font, mode, slice) else slice;
      TakePiece(font, wrapWidth, mode, line, points, next, cuts, pieces, index, (font.width(trimmed), trimmed));
      pieces := pieces + [(font.width(trimmed), trimmed)];
      cuts := cuts + [end];
      next := index + 1;
      start := end;
    }
    LastPoint(font, mode, line, points);
  }

  lemma NothingTaken(font: Font, wrapWidth: real, mode: WrapMode, line: string, points: seq<nat>)
    ensures SoFar(font, wrapWidth, mode, line, points, 0, [0], [])
  {
  }

  lemma LastPoint(font: Font, mode: WrapMode, line: string, points: seq<nat>)
    requires AreWrapPoints(font, mode, line, points)
    ensures points != [] && points[|points| - 1] == |line|
  {
  }

  /** Only an empty line has an empty word. */
  lemma EmptyWordIsDropped(font: Font, wrapWidth: real, line: string, points: seq<nat>, next: nat, cuts: seq<nat>,
                           pieces: seq<(real, string)>, broken: seq<(real, string)>, parts: seq<seq<(real, string)>>)
    requires AreWrapPoints(font, Word, line, points) && next < |points|
    requires SoFar(font, wrapWidth, Word, line, points, next, cuts, pieces)
    requires StartOf(points, next) == points[next]
    requires font.Monotone() ==> wrapWidth < SliceWidth(font, Word, line, points[next], points[next])
    requires |parts| == |Lines([])| && broken == Concat(parts)
    ensures SoFar(font, wrapWidth, Word, line, points, next + 1, cuts, pieces + broken)
  {
    hide Font.Monotone, Pieces, AllWellCut, AllTrimmed;
    PointsAreInLine(font, Word, line, points);
    AfterPoint(font, Word, line, points, next);
    assert next == 0 && line == [];
    assert line[0..0] == [];
    assert pieces + broken == pieces;
  }

  lemma CharacterIsTaken(font: Font, wrapWidth: real, line: string, points: seq<nat>, next: nat)
    requires AreWrapPoints(font, Char, line, points) && next < |points| && StartOf(points, next) <= points[next] <= |line|
    requires font.Monotone() ==> wrapWidth < SliceWidth(font, Char, line, StartOf(points, next), points[next])
    ensures font.Monotone() && (line != [] || font.width([]) <= wrapWidth) ==>
              WellCut(font, wrapWidth, Char, line, StartOf(points, next), points[next])
  {
    if font.Monotone() && line != [] {
      SingleCharacterIsWellCut(font, wrapWidth, line, points, next);
    } else if font.Monotone() {
      PointsAreInLine(font, Char, line, points);
      assert line[StartOf(points, next)..points[next]] == [];
    }
  }
}
