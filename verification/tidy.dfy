/**
  The fenced code-block extractor of recython's `tidy` module.

  `Extract(text, startMarker, endMarker)` returns the whitespace-stripped text
  between the first occurrence of the start marker (or of the ```python fence
  when the start marker is missing) and the last occurrence of the end marker,
  and returns `text` itself in every malformed case.  Python's `str.find`,
  `str.rfind`, `in` and `str.strip` are modelled by the functions below, each
  with a declarative contract.
 */
module Tidy {

  /** The bare fence; without it anywhere in the text, the text passes through. */
  const Fence: string := "```"
  /** The default start marker. */
  const CythonFence: string := "```cython"
  /** The start marker tried when the requested one is missing. */
  const PythonFence: string := "```python"

  // ---------------------------------------------------------------------------
  // Searching: Python's `in`, `str.find` and `str.rfind`
  // ---------------------------------------------------------------------------

  /** `pat` occurs in `s` starting at index `i`. */
  predicate OccursAt(s: string, pat: string, i: int) {
    0 <= i && i + |pat| <= |s| && s[i..i + |pat|] == pat
  }

  /** Python's `pat in s`. */
  predicate Contains(s: string, pat: string) {
    exists i :: 0 <= i <= |s| && OccursAt(s, pat, i)
  }

  /** `p` is the first index at which `pat` occurs in `s`. */
  predicate IsFirst(s: string, pat: string, p: int) {
    OccursAt(s, pat, p) && forall j :: 0 <= j < p ==> !OccursAt(s, pat, j)
  }

  /** `q` is the last index at which `pat` occurs in `s`. */
  predicate IsLast(s: string, pat: string, q: int) {
    OccursAt(s, pat, q) && forall j :: q < j <= |s| ==> !OccursAt(s, pat, j)
  }

  /** The first occurrence of `pat` in `s` at index `i` or later, or -1. */
  function FindFrom(s: string, pat: string, i: nat): (r: int)
    requires i <= |s|
    decreases |s| - i
    ensures r == -1 || (i <= r && OccursAt(s, pat, r))
    ensures forall j :: i <= j && (r == -1 || j < r) ==> !OccursAt(s, pat, j)
  {
    if OccursAt(s, pat, i) then i
    else if i == |s| then -1
    else FindFrom(s, pat, i + 1)
  }

  /** Python's `s.find(pat)`: the first index of `pat` in `s`, or -1. */
  function Find(s: string, pat: string): (r: int)
    ensures r == -1 <==> !Contains(s, pat)
    ensures r != -1 ==> IsFirst(s, pat, r)
  {
    FindFrom(s, pat, 0)
  }

  /** The last occurrence of `pat` in `s` at an index below `n`, or -1. */
  function FindLastBelow(s: string, pat: string, n: nat): (r: int)
    ensures r == -1 || (r < n && OccursAt(s, pat, r))
    ensures forall j :: r < j < n ==> !OccursAt(s, pat, j)
  {
    if n == 0 then -1
    else if OccursAt(s, pat, n - 1) then n - 1
    else FindLastBelow(s, pat, n - 1)
  }

  /** Python's `s.rfind(pat)`: the last index of `pat` in `s`, or -1. */
  function RFind(s: string, pat: string): (r: int)
    ensures r == -1 <==> !Contains(s, pat)
    ensures r != -1 ==> IsLast(s, pat, r)
  {
    FindLastBelow(s, pat, |s| + 1)
  }

  lemma FirstIsUnique(s: string, pat: string, p: int, p': int)
    requires IsFirst(s, pat, p) && IsFirst(s, pat, p')
    ensures p == p'
  {
  }

  lemma LastIsUnique(s: string, pat: string, q: int, q': int)
    requires IsLast(s, pat, q) && IsLast(s, pat, q')
    ensures q == q'
  {
  }

  // ---------------------------------------------------------------------------
  // Python's `str.strip()` without arguments
  // ---------------------------------------------------------------------------

  /** The characters for which Python's `str.isspace` holds, which `strip` removes. */
  predicate IsSpace(c: char) {
    c == ' ' || '\t' <= c <= '\r' || '\U{1c}' <= c <= '\U{1f}'
    || c == '\U{85}' || c == '\U{a0}' || c == '\U{1680}'
    || '\U{2000}' <= c <= '\U{200a}' || c == '\U{2028}' || c == '\U{2029}'
    || c == '\U{202f}' || c == '\U{205f}' || c == '\U{3000}'
  }

  /**
    On ASCII, the whitespace is Python's `string.whitespace` (space, tab,
    line feed, carriage return, vertical tab, form feed) together with the
    four information separators U+001C to U+001F.
   */
  lemma IsSpaceOnAscii(c: char)
    requires c as int < 128
    ensures IsSpace(c) <==> c in {' ', '\t', '\n', '\r', '\U{b}', '\U{c}', '\U{1c}', '\U{1d}', '\U{1e}', '\U{1f}'}
  {
  }

  /**
    `r` is what is left of `s` after removing whitespace before index `a` and
    from index `a + |r|` on, with neither end of `r` being whitespace.
   */
  predicate IsStripOf(s: string, r: string, a: int) {
    0 <= a && a + |r| <= |s| && s[a..a + |r|] == r
    && (forall i :: 0 <= i < a ==> IsSpace(s[i]))
    && (forall i :: a + |r| <= i < |s| ==> IsSpace(s[i]))
    && (r != [] ==> !IsSpace(r[0]) && !IsSpace(r[|r| - 1]))
  }

  /** Python's `s.strip()`: whitespace is dropped from the front, then from the back. */
  function Strip(s: string): (r: string)
    ensures exists a :: IsStripOf(s, r, a)
  {
    if s != [] && IsSpace(s[0]) then
      var r := Strip(s[1..]);
      var a :| IsStripOf(s[1..], r, a);
      assert IsStripOf(s, r, a + 1) by { SliceOfSlice(s, 1, |s|, a, a + |r|); }
      r
    else if s != [] && IsSpace(s[|s| - 1]) then
      var r := Strip(s[..|s| - 1]);
      var a :| IsStripOf(s[..|s| - 1], r, a);
      assert IsStripOf(s, r, a) by { SliceOfSlice(s, 0, |s| - 1, a, a + |r|); }
      r
    else
      assert IsStripOf(s, s, 0);
      s
  }

  /** The stripping of a string is determined by the string: `Strip` is the only candidate. */
  lemma StripIsUnique(s: string, r: string, a: int, r': string, a': int)
    requires IsStripOf(s, r, a) && IsStripOf(s, r', a')
    ensures r == r'
  {
    if r != [] && r' != [] {
      // both start at the first non-space character and end after the last one
      assert s[a] == r[0] && s[a'] == r'[0];
      assert a == a';
      assert s[a + |r| - 1] == r[|r| - 1] && s[a' + |r'| - 1] == r'[|r'| - 1];
      assert |r| == |r'|;
    }
  }

  /** Stripping twice is stripping once. */
  lemma StripIdempotent(s: string)
    ensures Strip(Strip(s)) == Strip(s)
  {
    var r := Strip(s);
    assert IsStripOf(r, r, 0);
    var a :| IsStripOf(r, Strip(r), a);
    StripIsUnique(r, r, 0, Strip(r), a);
  }

  // ---------------------------------------------------------------------------
  // extract_code_block
  // ---------------------------------------------------------------------------

  /** Whether `CodeSpan` found code; this module's own copy, used only there. */
  datatype Option<T> = None | Some(value: T)

  /** The code lies in the text from index `start` up to, not including, `end`. */
  datatype Span = Span(start: nat, end: nat)

  /**
    The searches of `extract_code_block`: the span between the chosen start
    marker and the last end marker, or `None` on every path where the source
    returns the text unchanged.
   */
  function CodeSpan(text: string, startMarker: string, endMarker: string): (span: Option<Span>)
    ensures span.Some? ==> span.value.start < span.value.end <= |text|
  {
    if !Contains(text, Fence) then None
    else
      var first := Find(text, startMarker);
      var marker := if first == -1 then PythonFence else startMarker;
      var pos := if first == -1 then Find(text, PythonFence) else first;
      if pos == -1 then None
      else
        var startPos := pos + |marker|;
        var endPos := RFind(text, endMarker);
        if endPos == -1 || endPos <= startPos then None
        else Some(Span(startPos, endPos))
  }

  /**
    `extract_code_block(text, start_marker, end_marker)`: the text itself, or
    a piece of it no longer than it with no whitespace at either end.
   */
  function Extract(text: string, startMarker: string, endMarker: string): (r: string)
    ensures r == text || (|r| <= |text| && (r == [] || (!IsSpace(r[0]) && !IsSpace(r[|r| - 1]))))
  {
    match CodeSpan(text, startMarker, endMarker)
    case None => text
    case Some(span) => Strip(text[span.start..span.end])
  }

  /**
    `Extract` never fails and every path returns `text` or a contiguous piece
    of it, so the result is never longer than the input; a result other than
    `text` has no whitespace at either end.
   */
  lemma ExtractIsPiece(text: string, startMarker: string, endMarker: string)
    ensures var r := Extract(text, startMarker, endMarker);
      |r| <= |text| && Contains(text, r)
      && (r != text ==> r == [] || (!IsSpace(r[0]) && !IsSpace(r[|r| - 1])))
  {
    match CodeSpan(text, startMarker, endMarker)
    case None =>
      assert OccursAt(text, text, 0);
    case Some(span) =>
      var piece := text[span.start..span.end];
      var a :| IsStripOf(piece, Strip(piece), a);
      StripOfSliceOccurs(text, span.start, span.end, Strip(piece), a);
  }

  lemma StripOfSliceOccurs(text: string, i: int, j: int, code: string, a: int)
    requires 0 <= i <= j <= |text|
    requires IsStripOf(text[i..j], code, a)
    ensures OccursAt(text, code, i + a)
  {
    SliceOfSlice(text, i, j, a, a + |code|);
  }

  lemma SliceOfSlice(s: string, i: int, j: int, a: int, b: int)
    requires 0 <= i <= j <= |s| && 0 <= a <= b <= j - i
    ensures s[i..j][a..b] == s[i + a..i + b]
  {
    forall k | 0 <= k < b - a
      ensures s[i..j][a..b][k] == s[i + a..i + b][k]
    {
      assert s[i..j][a..b][k] == s[i..j][a + k] == s[i + a + k];
    }
  }

  /** With no fence anywhere in the text, the text passes through unchanged. */
  lemma ExtractWithoutFence(text: string, startMarker: string, endMarker: string)
    requires !Contains(text, Fence)
    ensures Extract(text, startMarker, endMarker) == text
  {
  }

  /** With neither the start marker nor the ```python fallback in the text, the text passes through. */
  lemma ExtractWithoutStartMarker(text: string, startMarker: string, endMarker: string)
    requires !Contains(text, startMarker) && !Contains(text, PythonFence)
    ensures Extract(text, startMarker, endMarker) == text
  {
  }

  /** With no end marker in the text, the text passes through. */
  lemma ExtractWithoutEndMarker(text: string, startMarker: string, endMarker: string)
    requires !Contains(text, endMarker)
    ensures Extract(text, startMarker, endMarker) == text
  {
  }

  /** `CodeSpan` in terms of the values its searches return. */
  lemma CodeSpanAt(text: string, startMarker: string, endMarker: string,
                   marker: string, p: nat, q: nat)
    requires Contains(text, Fence)
    requires (marker == startMarker && Find(text, startMarker) == p)
          || (Find(text, startMarker) == -1 && marker == PythonFence && Find(text, PythonFence) == p)
    requires RFind(text, endMarker) == q
    ensures CodeSpan(text, startMarker, endMarker)
         == if p + |marker| < q then Some(Span(p + |marker|, q)) else None
  {
  }

  /**
    Where the code lies once a fence is present: the start marker used is the
    requested one if it occurs and ```python otherwise; the code begins right
    after that marker's FIRST occurrence `p` and ends at the end marker's LAST
    occurrence `q`; there is no code unless `q` lies strictly after its start.
   */
  lemma CodeSpanBetween(text: string, startMarker: string, endMarker: string,
                        marker: string, p: nat, q: nat)
    requires Contains(text, Fence)
    requires marker == startMarker || (!Contains(text, startMarker) && marker == PythonFence)
    requires IsFirst(text, marker, p)
    requires IsLast(text, endMarker, q)
    ensures CodeSpan(text, startMarker, endMarker)
         == if p + |marker| < q then Some(Span(p + |marker|, q)) else None
  {
    var first := Find(text, startMarker);
    if marker == startMarker {
      FirstIsUnique(text, startMarker, first, p);
    } else {
      FirstIsUnique(text, PythonFence, Find(text, PythonFence), p);
    }
    LastIsUnique(text, endMarker, RFind(text, endMarker), q);
    CodeSpanAt(text, startMarker, endMarker, marker, p, q);
  }

  /**
    The whole behaviour of `Extract` once a fence is present: the stripped
    text between the first chosen start marker and the last end marker, or
    the text itself when that end marker does not lie after the code's start.
   */
  lemma ExtractSpan(text: string, startMarker: string, endMarker: string,
                    marker: string, p: nat, q: nat)
    requires Contains(text, Fence)
    requires marker == startMarker || (!Contains(text, startMarker) && marker == PythonFence)
    requires IsFirst(text, marker, p)
    requires IsLast(text, endMarker, q)
    ensures Extract(text, startMarker, endMarker)
         == if p + |marker| < q then Strip(text[p + |marker|..q]) else text
  {
    CodeSpanBetween(text, startMarker, endMarker, marker, p, q);
    if p + |marker| < q {
      ExtractOfSpan(text, startMarker, endMarker, p + |marker|, q);
    } else {
      ExtractOfNoSpan(text, startMarker, endMarker);
    }
  }

  lemma ExtractOfSpan(text: string, startMarker: string, endMarker: string, i: nat, j: nat)
    requires CodeSpan(text, startMarker, endMarker) == Some(Span(i, j))
    ensures i < j <= |text|
    ensures Extract(text, startMarker, endMarker) == Strip(text[i..j])
  {
  }

  lemma ExtractOfNoSpan(text: string, startMarker: string, endMarker: string)
    requires CodeSpan(text, startMarker, endMarker) == None
    ensures Extract(text, startMarker, endMarker) == text
  {
  }

  /**
    A lone opening fence is not a code block: when the start marker begins
    with the end marker "```" (as the defaults do) and "```" occurs only
    once in the text, the last "```" is the one inside the opening fence,
    and the text passes through.
   */
  lemma ExtractLoneOpeningFence(text: string, startMarker: string, p: int)
    requires Fence <= startMarker
    requires IsFirst(text, Fence, p) && IsLast(text, Fence, p)
    ensures Extract(text, startMarker, Fence) == text
  {
    var first := Find(text, startMarker);
    var marker := if first == -1 then PythonFence else startMarker;
    var pos := if first == -1 then Find(text, PythonFence) else first;
    if pos != -1 {
      assert text[pos..pos + 3] == marker[..3] == Fence;
      assert OccursAt(text, Fence, pos);
      assert pos == p;
      LastIsUnique(text, Fence, RFind(text, Fence), p);
      CodeSpanAt(text, startMarker, Fence, marker, pos, p);
    }
  }

  /** No backtick in `s`, so no fence can start inside it. */
  predicate NoBacktick(s: string) {
    forall i :: 0 <= i < |s| ==> s[i] != '`'
  }

  /**
    A well-formed reply: prose, one ```cython block, and a tail, with no
    backtick in the prose or the tail.  The block's body comes back stripped;
    an empty body is no code block, and the reply then passes through.
   */
  lemma ExtractFencedBlock(prose: string, body: string, tail: string)
    requires NoBacktick(prose) && NoBacktick(tail)
    ensures var text := prose + CythonFence + body + Fence + tail;
      Extract(text, CythonFence, Fence) == if body == [] then text else Strip(body)
  {
    var text := prose + CythonFence + body + Fence + tail;
    var p, q := |prose|, |prose| + |CythonFence| + |body|;
    FencedBlockMarkers(prose, body, tail);
    ExtractSpan(text, CythonFence, Fence, CythonFence, p, q);
    assert text[p + |CythonFence|..q] == body;
  }

  lemma FencedBlockMarkers(prose: string, body: string, tail: string)
    requires NoBacktick(prose) && NoBacktick(tail)
    ensures var text := prose + CythonFence + body + Fence + tail;
      Contains(text, Fence)
      && IsFirst(text, CythonFence, |prose|)
      && IsLast(text, Fence, |prose| + |CythonFence| + |body|)
  {
    var text := prose + CythonFence + body + Fence + tail;
    var p, q := |prose|, |prose| + |CythonFence| + |body|;
    assert text[p..p + |CythonFence|] == CythonFence;
    assert text[q..q + |Fence|] == Fence;
    assert OccursAt(text, Fence, q);
    forall j | 0 <= j < p
      ensures !OccursAt(text, CythonFence, j)
    {
      assert text[j] == prose[j];
      MismatchAt(text, CythonFence, j);
    }
    forall j | q < j <= |text|
      ensures !OccursAt(text, Fence, j)
    {
      if j + |Fence| <= |text| {
        assert text[j + 2] == tail[j + 2 - q - 3];
        assert text[j..j + 3][2] != Fence[2];
      }
    }
  }

  /** A pattern cannot occur where its first character is missing. */
  lemma MismatchAt(s: string, pat: string, j: int)
    requires pat != [] && 0 <= j < |s| && s[j] != pat[0]
    ensures !OccursAt(s, pat, j)
  {
  }

  /** The sample of the tidy tests: prose around an indented ```cython block. */
  const SampleIndent: string := "\n    "
  const SampleProse: string := "\n    Some random text" + SampleIndent
  const SampleCode: string := "def hello_world():" + "\n        print(\"Hello, World!\")"
  const SampleBody: string := SampleIndent + SampleCode + SampleIndent
  const Sample: string := SampleProse + CythonFence + SampleBody + Fence + SampleIndent

  /** The test sample yields its block with the internal indentation kept. */
  lemma ExtractSampleBlock()
    ensures Extract(Sample, CythonFence, Fence) == SampleCode
  {
    assert NoBacktick(SampleProse) && NoBacktick(SampleIndent);
    ExtractFencedBlock(SampleProse, SampleBody, SampleIndent);
    SampleBodyStrips();
  }

  lemma SampleBodyStrips()
    ensures Strip(SampleBody) == SampleCode
  {
    var n := |SampleIndent|;
    assert forall i :: 0 <= i < n ==> IsSpace(SampleIndent[i]);
    assert SampleBody[..n] == SampleIndent;
    assert SampleBody[n..n + |SampleCode|] == SampleCode;
    assert SampleBody[n + |SampleCode|..] == SampleIndent;
    assert |SampleCode| == 49 && SampleCode[0] == 'd' && SampleCode[48] == ')';
    assert IsStripOf(SampleBody, SampleCode, n);
    var a :| IsStripOf(SampleBody, Strip(SampleBody), a);
    StripIsUnique(SampleBody, SampleCode, n, Strip(SampleBody), a);
  }
}
