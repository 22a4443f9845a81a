/** The library call the framer rests on: `input.Split(delimiter.ToCharArray())`.
    The delimiter is used as a SET of separator characters, not as a substring:
    every occurrence of any of its characters ends a segment, so n separator
    occurrences give n + 1 segments, some of which may be empty. */
module StringSplit {

  /** The characters `Char.IsWhiteSpace` accepts. `String.Split` falls back to
      these when it is handed an empty separator array. */
  predicate IsWhiteSpace(c: char) {
    var n := c as int;
    (0x09 <= n <= 0x0D) || n == 0x20 || n == 0x85 || n == 0xA0 || n == 0x1680
    || (0x2000 <= n <= 0x200A) || n == 0x2028 || n == 0x2029 || n == 0x202F
    || n == 0x205F || n == 0x3000
  }

  /** Whether `c` ends a segment when splitting on `delimiter.ToCharArray()`. */
  predicate IsSeparator(delimiter: string, c: char) {
    if delimiter == [] then IsWhiteSpace(c) else c in delimiter
  }

  predicate SeparatorFree(delimiter: string, s: string) {
    forall i :: 0 <= i < |s| ==> !IsSeparator(delimiter, s[i])
  }

  /** The separator characters of `s`, in order. */
  function SeparatorsOf(s: string, delimiter: string): seq<char>
    decreases |s|
  {
    if s == [] then []
    else
      SeparatorsOf(s[..|s| - 1], delimiter)
      + (if IsSeparator(delimiter, s[|s| - 1]) then [s[|s| - 1]] else [])
  }

  /** `s` with every separator character deleted. */
  function Strip(s: string, delimiter: string): string
    decreases |s|
  {
    if s == [] then []
    else
      Strip(s[..|s| - 1], delimiter)
      + (if IsSeparator(delimiter, s[|s| - 1]) then [] else [s[|s| - 1]])
  }

  /** `String.Split(char[])`: never an empty array, one more segment than
      there are separator characters. */
  function Split(s: string, delimiter: string): (segments: seq<string>)
    ensures |segments| == |SeparatorsOf(s, delimiter)| + 1
    decreases |s|
  {
    if s == [] then [""]
    else
      var front := Split(s[..|s| - 1], delimiter);
      var c := s[|s| - 1];
      if IsSeparator(delimiter, c) then front + [""]
      else front[..|front| - 1] + [front[|front| - 1] + [c]]
  }

  /** Puts segments back together with the separators that stood between them. */
  function Interleave(segments: seq<string>, separators: seq<char>): string
    requires |segments| == |separators| + 1
    decreases |separators|
  {
    if separators == [] then segments[0]
    else
      Interleave(segments[..|segments| - 1], separators[..|separators| - 1])
      + [separators[|separators| - 1]] + segments[|segments| - 1]
  }

  /** Appending an empty segment after a new separator appends the separator. */
  lemma InterleaveSeparator(segments: seq<string>, separators: seq<char>, c: char)
    requires |segments| == |separators| + 1
    ensures Interleave(segments + [""], separators + [c]) == Interleave(segments, separators) + [c]
  {
  }

  /** Extending the last segment by one character extends the whole by it. */
  lemma InterleaveExtendLast(segments: seq<string>, separators: seq<char>, c: char)
    requires |segments| == |separators| + 1
    ensures Interleave(segments[..|segments| - 1] + [segments[|segments| - 1] + [c]], separators)
         == Interleave(segments, separators) + [c]
  {
  }

  /** Splitting loses nothing: putting the separators back between the
      segments gives the input again. */
  lemma {:induction false} SplitReassembles(s: string, delimiter: string)
    ensures Interleave(Split(s, delimiter), SeparatorsOf(s, delimiter)) == s
    decreases |s|
  {
    if s != [] {
      var init, c := s[..|s| - 1], s[|s| - 1];
      assert s == init + [c];
      SplitReassembles(init, delimiter);
      if IsSeparator(delimiter, c) {
        InterleaveSeparator(Split(init, delimiter), SeparatorsOf(init, delimiter), c);
      } else {
        assert SeparatorsOf(s, delimiter) == SeparatorsOf(init, delimiter);
        InterleaveExtendLast(Split(init, delimiter), SeparatorsOf(init, delimiter), c);
      }
    }
  }

  /** No segment contains a separator character. */
  lemma {:induction false} SegmentsSeparatorFree(s: string, delimiter: string)
    ensures forall i :: 0 <= i < |Split(s, delimiter)| ==> SeparatorFree(delimiter, Split(s, delimiter)[i])
    decreases |s|
  {
    if s != [] {
      var init, c := s[..|s| - 1], s[|s| - 1];
      SegmentsSeparatorFree(init, delimiter);
      var front := Split(init, delimiter);
      if !IsSeparator(delimiter, c) {
        var last := front[|front| - 1];
        assert SeparatorFree(delimiter, last);
        assert SeparatorFree(delimiter, last + [c]);
      }
    }
  }

  /** A separator-free string has no separators to report. */
  lemma {:induction false} SeparatorsOfSeparatorFree(s: string, delimiter: string)
    requires SeparatorFree(delimiter, s)
    ensures SeparatorsOf(s, delimiter) == []
    decreases |s|
  {
    if s != [] {
      SeparatorsOfSeparatorFree(s[..|s| - 1], delimiter);
    }
  }

  /** A string without separators splits into itself alone. */
  lemma SplitSeparatorFree(s: string, delimiter: string)
    requires SeparatorFree(delimiter, s)
    ensures Split(s, delimiter) == [s]
  {
    SeparatorsOfSeparatorFree(s, delimiter);
    SplitReassembles(s, delimiter);
  }
}
