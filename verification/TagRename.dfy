/** Renaming a tag: its spellings are cut out of the content and the new spelling is put in. */
module TagRename {
  import opened Utf8
  import opened TagScanner

  datatype Range = Range(start: nat, end: nat)

  /** The spellings of parsed tags, sorted: in bounds and disjoint. */
  predicate Cuts(ranges: seq<Range>, from: nat, to: nat)
    decreases |ranges|
  {
    if ranges == [] then from <= to
    else from <= ranges[0].start <= ranges[0].end && Cuts(ranges[1..], ranges[0].end, to)
  }

  lemma {:induction false} CutsInBounds(ranges: seq<Range>, from: nat, to: nat)
    requires Cuts(ranges, from, to)
    ensures from <= to
    ensures ranges != [] ==> ranges[0].end <= to
    decreases |ranges|
  {
    if ranges != [] {
      CutsInBounds(ranges[1..], ranges[0].end, to);
    }
  }

  /** The content from `cursor` on, with the text in each range replaced. */
  function Splice(content: seq<Byte>, ranges: seq<Range>, texts: seq<seq<Byte>>, cursor: nat): seq<Byte>
    requires |texts| == |ranges| && Cuts(ranges, cursor, |content|)
    decreases |ranges|
  {
    CutsInBounds(ranges, cursor, |content|);
    if ranges == [] then content[cursor..]
    else content[cursor..ranges[0].start] + texts[0] + Splice(content, ranges[1..], texts[1..], ranges[0].end)
  }

  function Repeated(text: seq<Byte>, n: nat): seq<seq<Byte>> {
    seq(n, _ => text)
  }

  method RenameRanges(content: seq<Byte>, ranges: seq<Range>, newTag: seq<Byte>) returns (output: seq<Byte>)
    requires Cuts(ranges, 0, |content|)
    ensures output == Splice(content, ranges, Repeated([HASH] + newTag, |ranges|), 0)
  {
    output := [];
    var cursor: nat := 0;
    ghost var texts := Repeated([HASH] + newTag, |ranges|);
    for i := 0 to |ranges|
      invariant cursor <= |content| && Cuts(ranges[i..], cursor, |content|)
      invariant output + Splice(content, ranges[i..], texts[i..], cursor) == Splice(content, ranges, texts, 0)
    {
      CutsInBounds(ranges[i..], cursor, |content|);
      assert ranges[i..][1..] == ranges[i + 1..] && texts[i..][1..] == texts[i + 1..];
      ghost var rest := Splice(content, ranges[i + 1..], texts[i + 1..], ranges[i].end);
      assert output + (content[cursor..ranges[i].start] + texts[i] + rest)
          == output + content[cursor..ranges[i].start] + [HASH] + newTag + rest;
      output := output + content[cursor..ranges[i].start];
      output := output + [HASH];
      output := output + newTag;
      cursor := ranges[i].end;
    }
    output := output + content[cursor..];
  }

  // ----- Undoing a rename -----

  /** Where the replaced texts come to lie: position `cursor` of the content is at `at` in the result. */
  function Moved(ranges: seq<Range>, texts: seq<seq<Byte>>, cursor: nat, at: nat, to: nat): seq<Range>
    requires |texts| == |ranges| && Cuts(ranges, cursor, to)
    decreases |ranges|
  {
    if ranges == [] then []
    else
      var start := at + ranges[0].start - cursor;
      [Range(start, start + |texts[0]|)] + Moved(ranges[1..], texts[1..], ranges[0].end, start + |texts[0]|, to)
  }

  /** The texts that lie in the ranges. */
  function TextsOf(content: seq<Byte>, ranges: seq<Range>, from: nat): seq<seq<Byte>>
    requires Cuts(ranges, from, |content|)
    decreases |ranges|
  {
    CutsInBounds(ranges, from, |content|);
    if ranges == [] then []
    else [content[ranges[0].start..ranges[0].end]] + TextsOf(content, ranges[1..], ranges[0].end)
  }

  lemma {:induction false} TextsCount(content: seq<Byte>, ranges: seq<Range>, from: nat)
    requires Cuts(ranges, from, |content|)
    ensures |TextsOf(content, ranges, from)| == |ranges|
    decreases |ranges|
  {
    if ranges != [] {
      TextsCount(content, ranges[1..], ranges[0].end);
    }
  }

  /** After a rename the new texts lie in the moved ranges, and putting the old texts back there
      restores the content: nothing outside the ranges was touched. */
  lemma {:induction false} SpliceUndone(content: seq<Byte>, ranges: seq<Range>, texts: seq<seq<Byte>>, cursor: nat,
                                        output: seq<Byte>, at: nat)
    requires |texts| == |ranges| && cursor <= |content| && Cuts(ranges, cursor, |content|)
    requires at <= |output| && output[at..] == Splice(content, ranges, texts, cursor)
    ensures var moved := Moved(ranges, texts, cursor, at, |content|);
      var olds := TextsOf(content, ranges, cursor);
      && |moved| == |olds| == |ranges| && Cuts(moved, at, |output|)
      && TextsOf(output, moved, at) == texts
      && Splice(output, moved, olds, at) == content[cursor..]
    decreases |ranges|
  {
    TextsCount(content, ranges, cursor);
    CutsInBounds(ranges, cursor, |content|);
    if ranges != [] {
      var gap := ranges[0].start - cursor;
      var start := at + gap;
      var next := start + |texts[0]|;
      var rest := Splice(content, ranges[1..], texts[1..], ranges[0].end);
      assert output[at..] == content[cursor..ranges[0].start] + texts[0] + rest;
      assert output[next..] == output[at..][gap + |texts[0]|..] == rest;
      assert output[start..next] == output[at..][gap..gap + |texts[0]|] == texts[0];
      assert output[at..start] == output[at..][..gap] == content[cursor..ranges[0].start];
      SpliceUndone(content, ranges[1..], texts[1..], ranges[0].end, output, next);
      assert content[cursor..] ==
        content[cursor..ranges[0].start] + content[ranges[0].start..ranges[0].end] + content[ranges[0].end..];
    }
  }

  /** Renaming a tag to its own spelling changes nothing. */
  lemma {:induction false} RenameToItself(content: seq<Byte>, ranges: seq<Range>, from: nat)
    requires from <= |content| && Cuts(ranges, from, |content|)
    ensures |TextsOf(content, ranges, from)| == |ranges|
    ensures Splice(content, ranges, TextsOf(content, ranges, from), from) == content[from..]
    decreases |ranges|
  {
    CutsInBounds(ranges, from, |content|);
    TextsCount(content, ranges, from);
    if ranges != [] {
      var r := ranges[0];
      RenameToItself(content, ranges[1..], r.end);
      TextsCount(content, ranges[1..], r.end);
      assert TextsOf(content, ranges, from)[1..] == TextsOf(content, ranges[1..], r.end);
      assert content[from..r.start] + content[r.start..r.end] + content[r.end..] == content[from..];
    }
  }
}
