/** Text preparation in RoomRAG: `clean_text` (whitespace normalisation and
    removal of PDF object artifacts) and `chunk_text` (greedy packing of
    words into chunks of bounded length). */
module RagChunking {
  import opened PyText

  // ---------------------------------------------------------------------
  // clean_text

  /** re.sub(r'\s+', ' ', s): every maximal run of whitespace becomes one space. */
  function CollapseSpace(s: string): (r: string)
    ensures forall c :: c in r ==> c == ' ' || c in s
    ensures forall i :: 0 <= i < |r| && IsSpace(r[i]) ==> r[i] == ' '
    ensures NoDoubleSpace(r)
    ensures r == [] <==> s == []
    ensures r != [] ==> (IsSpace(r[0]) <==> IsSpace(s[0]))
    decreases |s|
  {
    if s == [] then []
    else if IsSpace(s[0]) then
      var t := TrimLeft(s);
      assert |t| < |s|;
      var rest := CollapseSpace(t);
      assert NoDoubleSpace(" " + rest) by {
        forall i | 0 < i < |rest| ensures (" " + rest)[i + 1] == rest[i] { }
      }
      " " + rest
    else
      var rest := CollapseSpace(s[1..]);
      assert NoDoubleSpace([s[0]] + rest) by {
        forall i | 0 < i < |rest| ensures ([s[0]] + rest)[i + 1] == rest[i] { }
      }
      [s[0]] + rest
  }

  /** No two neighbouring characters are both whitespace. */
  predicate NoDoubleSpace(r: string)
  {
    forall i :: 0 <= i < |r| - 1 ==> !(IsSpace(r[i]) && IsSpace(r[i + 1]))
  }

  /** Collapsing whitespace runs keeps the words, in order. */
  lemma {:induction false} CollapseSpaceKeepsWords(s: string)
    ensures Split(CollapseSpace(s)) == Split(s)
    decreases |s|
  {
    if s != [] {
      var r := CollapseSpace(s);
      if IsSpace(s[0]) {
        var t := TrimLeft(s);
        var rest := CollapseSpace(t);
        CollapseSpaceKeepsWords(t);
        SplitTrimLeft(s);
        assert r == " " + rest;
        assert r[1..] == rest;
      } else {
        var rest := CollapseSpace(s[1..]);
        CollapseSpaceKeepsWords(s[1..]);
        SplitCons(s[0], s[1..]);
        SplitCons(s[0], rest);
        assert r == [s[0]] + rest;
        assert s == [s[0]] + s[1..];
      }
    }
  }

  /** The collapsed text ends in whitespace exactly when the input does. */
  lemma {:induction false} CollapseSpaceEnd(s: string)
    ensures var r := CollapseSpace(s); r != [] ==> (IsSpace(r[|r| - 1]) <==> IsSpace(s[|s| - 1]))
    decreases |s|
  {
    if s != [] {
      if IsSpace(s[0]) {
        var t := TrimLeft(s);
        CollapseSpaceEnd(t);
        if t != [] {
          assert s[|s| - 1] == t[|t| - 1];
        }
      } else {
        CollapseSpaceEnd(s[1..]);
      }
    }
  }

  /** The converse of SplitJoin: the single-space join of a text's words is
      the text with every whitespace run collapsed to one space and its ends
      stripped. */
  lemma {:induction false} SplitJoinConverse(s: string)
    ensures Join(Split(s), " ") == Strip(CollapseSpace(s))
  {
    var c := CollapseSpace(s);
    CollapseSpaceKeepsWords(s);
    SplitStrip(c);
    StripSingleSpaced(c);
    JoinSplitSingleSpaced(Strip(c));
  }

  /** Stripping a collapsed text leaves a single-spaced text. */
  lemma {:induction false} StripSingleSpaced(c: string)
    requires forall i :: 0 <= i < |c| && IsSpace(c[i]) ==> c[i] == ' '
    requires NoDoubleSpace(c)
    ensures SingleSpaced(Strip(c))
  {
    var t := Strip(c);
    var a, b :| OnlySpaceOutside(c, a, b) && t == c[a..b];
    forall i | 0 <= i < |t| && IsSpace(t[i])
      ensures t[i] == ' ' && 0 < i < |t| - 1 && !IsSpace(t[i - 1]) && !IsSpace(t[i + 1])
    {
      assert t[i] == c[a + i];
      assert 0 < i < |t| - 1;
      assert t[i - 1] == c[a + i - 1];
      assert t[i + 1] == c[a + i + 1];
    }
  }

  /** re.sub(open + '.*?' + close, '', s) on a string without line breaks
      (where `.` matches every character): scanning left to right, each
      occurrence of `open` that is followed somewhere by `close` is removed up
      to and including the first such `close`; scanning resumes after it. */
  function RemoveSpans(s: string, open: string, close: string): (r: string)
    requires open != []
    ensures forall c :: c in r ==> c in s
    decreases |s|
  {
    if s == [] then []
    else if StartsWith(s, open) && Find(s[|open|..], close) >= 0 then
      var k := Find(s[|open|..], close);
      var rest := s[|open| + k + |close|..];
      assert forall c :: c in rest ==> c in s;
      RemoveSpans(rest, open, close)
    else
      [s[0]] + RemoveSpans(s[1..], open, close)
  }

  /** clean_text: collapse whitespace, drop `%PDF…endobj` and then
      `obj…endobj` spans, strip. The cleaned text has no whitespace at either
      end, and the only whitespace character left in it is the plain space. */
  function CleanText(s: string): (r: string)
    ensures r == [] || (!IsSpace(r[0]) && !IsSpace(r[|r| - 1]))
    ensures forall i :: 0 <= i < |r| && IsSpace(r[i]) ==> r[i] == ' '
  {
    var a := CollapseSpace(s);
    var b := RemoveSpans(a, "%PDF", "endobj");
    var c := RemoveSpans(b, "obj", "endobj");
    OnlyPlainSpaces(a, c);
    Strip(c)
  }

  /** Removing spans from a text whose only whitespace is the plain space and
      then stripping it leaves no other whitespace character. */
  lemma {:induction false} OnlyPlainSpaces(a: string, c: string)
    requires forall i :: 0 <= i < |a| && IsSpace(a[i]) ==> a[i] == ' '
    requires forall ch :: ch in c ==> ch in a
    ensures var r := Strip(c); forall i :: 0 <= i < |r| && IsSpace(r[i]) ==> r[i] == ' '
  {
    var r := Strip(c);
    forall i | 0 <= i < |r| && IsSpace(r[i]) ensures r[i] == ' ' {
      assert r[i] in r;
      var j :| 0 <= j < |a| && a[j] == r[i];
    }
  }

  /** A cleaned text of at least one character holds at least one word. */
  lemma {:induction false} CleanTextHasWord(s: string)
    requires CleanText(s) != []
    ensures Split(CleanText(s)) != []
  {
    SplitNonEmpty(CleanText(s), 0);
  }

  // ---------------------------------------------------------------------
  // chunk_text

  /** The value `current_size` has in chunk_text once the words `g` make up
      the current chunk: the joined length, plus one for the very first
      chunk (whose first word is counted with a trailing space). */
  function PackedSize(g: seq<string>, first: bool): int
  {
    |Join(g, " ")| + (if first then 1 else 0)
  }

  /** `groups` is the greedy packing of `words` into chunks of at most `size`
      characters: the groups cover the words in order, none is empty, a
      group of two or more words fits, and the first word of each group
      would not have fitted into the group before it. `first` says whether
      the first group is the first chunk of the text. */
  ghost predicate GreedyFrom(words: seq<string>, groups: seq<seq<string>>, size: int, first: bool)
  {
    Flatten(groups) == words
    && (forall i :: 0 <= i < |groups| ==> groups[i] != [])
    && (forall i :: 0 <= i < |groups| && |groups[i]| >= 2 ==> PackedSize(groups[i], first && i == 0) <= size)
    && (forall i :: 0 <= i < |groups| - 1 ==> PackedSize(groups[i], first && i == 0) + |groups[i + 1][0]| + 1 > size)
  }

  /** `chunks` is what chunk_text(text, size) returns: the greedy packing of
      the text's words, each chunk its words joined by single spaces. */
  ghost predicate IsChunkingOf(text: string, chunks: seq<string>, size: int)
  {
    exists groups :: GreedyFrom(Split(text), groups, size, true) && chunks == JoinAll(groups)
  }

  lemma {:induction false} PackedSizeSnoc(g: seq<string>, w: string, first: bool)
    requires g != []
    ensures PackedSize(g + [w], first) == PackedSize(g, first) + |w| + 1
  {
    JoinSnoc(g, w, " ");
  }

  /** Closing the current group keeps the packing greedy. */
  lemma {:induction false} GreedyExtend(groups: seq<seq<string>>, g: seq<string>, size: int)
    requires GreedyFrom(Flatten(groups), groups, size, true)
    requires g != []
    requires |g| >= 2 ==> PackedSize(g, groups == []) <= size
    requires groups != [] ==> PackedSize(groups[|groups| - 1], |groups| == 1) + |g[0]| + 1 > size
    ensures GreedyFrom(Flatten(groups + [g]), groups + [g], size, true)
  {
    var gs := groups + [g];
    var n := |groups|;
    assert forall i :: 0 <= i < n ==> gs[i] == groups[i];
    assert gs[n] == g;
    forall i | 0 <= i < |gs| ensures gs[i] != [] {
      if i < n { assert gs[i] == groups[i]; }
    }
    forall i | 0 <= i < |gs| && |gs[i]| >= 2 ensures PackedSize(gs[i], i == 0) <= size {
      if i < n { assert gs[i] == groups[i]; }
    }
    forall i | 0 <= i < |gs| - 1 ensures PackedSize(gs[i], i == 0) + |gs[i + 1][0]| + 1 > size {
      if i < n - 1 {
        assert gs[i] == groups[i] && gs[i + 1] == groups[i + 1];
      } else {
        assert gs[i] == groups[n - 1] && gs[i + 1] == g;
      }
    }
  }

  /** The state of chunk_text's loop after the first `i` words: the closed
      groups and the current one cover those words, the closed groups are a
      greedy packing, and the current group was filled greedily after them. */
  ghost predicate PackingState(words: seq<string>, i: nat, groups: seq<seq<string>>, current: seq<string>, currentSize: int, size: int)
  {
    i <= |words|
    && Flatten(groups) + current == words[..i]
    && GreedyFrom(Flatten(groups), groups, size, true)
    && (current == [] <==> i == 0)
    && (current == [] ==> currentSize == 0)
    && (current != [] ==> currentSize == PackedSize(current, groups == []))
    && (|current| >= 2 ==> PackedSize(current, groups == []) <= size)
    && (groups != [] ==> PackedSize(groups[|groups| - 1], |groups| == 1) + |current[0]| + 1 > size)
  }

  /** The loop closes the current group and opens one with the next word. */
  lemma {:induction false} PackingStepClose(words: seq<string>, i: nat, groups: seq<seq<string>>, current: seq<string>, currentSize: int, size: int)
    requires i < |words| && PackingState(words, i, groups, current, currentSize, size)
    requires current != [] && currentSize + |words[i]| + 1 > size
    ensures PackingState(words, i + 1, groups + [current], [words[i]], |words[i]|, size)
    ensures JoinAll(groups + [current]) == JoinAll(groups) + [Join(current, " ")]
  {
    GreedyExtend(groups, current, size);
    FlattenAppend(groups, [current]);
    assert Flatten([current]) == current + Flatten([]);
    assert words[..i + 1] == words[..i] + [words[i]];
  }

  /** The loop adds the next word to the current group. */
  lemma {:induction false} PackingStepAppend(words: seq<string>, i: nat, groups: seq<seq<string>>, current: seq<string>, currentSize: int, size: int)
    requires i < |words| && PackingState(words, i, groups, current, currentSize, size)
    requires !(current != [] && currentSize + |words[i]| + 1 > size)
    ensures PackingState(words, i + 1, groups, current + [words[i]], currentSize + |words[i]| + 1, size)
  {
    if current != [] {
      PackedSizeSnoc(current, words[i], groups == []);
    }
    assert words[..i + 1] == words[..i] + [words[i]];
  }

  /** After the last word, closing the current group completes the packing. */
  lemma {:induction false} PackingFinish(words: seq<string>, groups: seq<seq<string>>, current: seq<string>, currentSize: int, size: int)
    requires PackingState(words, |words|, groups, current, currentSize, size)
    ensures current != [] ==> GreedyFrom(words, groups + [current], size, true)
    ensures current != [] ==> JoinAll(groups + [current]) == JoinAll(groups) + [Join(current, " ")]
    ensures current == [] ==> GreedyFrom(words, groups, size, true)
  {
    assert words[..|words|] == words;
    if current != [] {
      GreedyExtend(groups, current, size);
      FlattenAppend(groups, [current]);
      assert Flatten([current]) == current + Flatten([]);
    }
  }

  /** chunk_text(text, chunk_size) */
  method ChunkText(text: string, chunkSize: int) returns (chunks: seq<string>)
    ensures IsChunkingOf(text, chunks, chunkSize)
  {
    var words := Split(text);
    chunks := [];
    ghost var groups: seq<seq<string>> := [];
    var current: seq<string> := [];
    var currentSize := 0;
    for i := 0 to |words|
      invariant PackingState(words, i, groups, current, currentSize, chunkSize)
      invariant chunks == JoinAll(groups)
    {
      var word := words[i];
      if currentSize + |word| + 1 > chunkSize && current != [] {
        PackingStepClose(words, i, groups, current, currentSize, chunkSize);
        chunks := chunks + [Join(current, " ")];
        groups := groups + [current];
        current := [word];
        currentSize := |word|;
      } else {
        PackingStepAppend(words, i, groups, current, currentSize, chunkSize);
        current := current + [word];
        currentSize := currentSize + |word| + 1;
      }
    }
    PackingFinish(words, groups, current, currentSize, chunkSize);
    if current != [] {
      chunks := chunks + [Join(current, " ")];
      groups := groups + [current];
    }
    ChunkingWitness(text, groups, chunks, chunkSize);
  }

  lemma {:induction false} ChunkingWitness(text: string, groups: seq<seq<string>>, chunks: seq<string>, size: int)
    requires GreedyFrom(Split(text), groups, size, true) && chunks == JoinAll(groups)
    ensures IsChunkingOf(text, chunks, size)
  {
  }

  // ---------------------------------------------------------------------
  // Properties of the greedy packing

  lemma {:induction false} FlattenEmpty(groups: seq<seq<string>>)
    requires forall i :: 0 <= i < |groups| ==> groups[i] != []
    ensures Flatten(groups) == [] <==> groups == []
  {
    if groups != [] {
      assert Flatten(groups) == groups[0] + Flatten(groups[1..]);
    }
  }

  /** Every word in a packing is a word of the text. */
  lemma {:induction false} FlattenMembers(groups: seq<seq<string>>, i: nat, j: nat)
    requires i < |groups| && j < |groups[i]|
    ensures exists k :: 0 <= k < |Flatten(groups)| && Flatten(groups)[k] == groups[i][j]
  {
    if i == 0 {
      assert Flatten(groups)[j] == groups[0][j];
    } else {
      FlattenMembers(groups[1..], i - 1, j);
      var k :| 0 <= k < |Flatten(groups[1..])| && Flatten(groups[1..])[k] == groups[i][j];
      assert Flatten(groups)[|groups[0]| + k] == groups[i][j];
    }
  }

  lemma {:induction false} GroupsHoldWords(text: string, groups: seq<seq<string>>)
    requires Flatten(groups) == Split(text)
    ensures forall i, j :: 0 <= i < |groups| && 0 <= j < |groups[i]| ==> IsWord(groups[i][j])
  {
    forall i, j | 0 <= i < |groups| && 0 <= j < |groups[i]| ensures IsWord(groups[i][j]) {
      FlattenMembers(groups, i, j);
    }
  }

  /** Splitting each chunk and concatenating the pieces gives back exactly the
      words of the text, in order. */
  lemma {:induction false} ChunkingPreservesWords(text: string, chunks: seq<string>, size: int)
    requires IsChunkingOf(text, chunks, size)
    ensures Flatten(SplitAll(chunks)) == Split(text)
  {
    var groups :| GreedyFrom(Split(text), groups, size, true) && chunks == JoinAll(groups);
    GroupsHoldWords(text, groups);
    SplitAllJoinAll(groups);
  }

  lemma {:induction false} JoinNonEmpty(g: seq<string>)
    requires g != [] && IsWord(g[0])
    ensures Join(g, " ") != []
  {
  }

  /** No chunk is empty, and there are no chunks exactly when the text has no words. */
  lemma {:induction false} ChunkingNonEmpty(text: string, chunks: seq<string>, size: int)
    requires IsChunkingOf(text, chunks, size)
    ensures forall i :: 0 <= i < |chunks| ==> chunks[i] != []
    ensures chunks == [] <==> Split(text) == []
  {
    var groups :| GreedyFrom(Split(text), groups, size, true) && chunks == JoinAll(groups);
    GroupsHoldWords(text, groups);
    FlattenEmpty(groups);
    forall i | 0 <= i < |chunks| ensures chunks[i] != [] {
      JoinNonEmpty(groups[i]);
    }
  }

  /** A chunk of two or more words never exceeds the size limit; the first
      chunk stays one character below it. Only a single word longer than the
      limit makes a chunk longer than `size`. */
  lemma {:induction false} ChunkingSizeBound(text: string, chunks: seq<string>, size: int)
    requires IsChunkingOf(text, chunks, size)
    ensures forall i :: 0 <= i < |chunks| && |Split(chunks[i])| >= 2 ==> |chunks[i]| <= size
    ensures |chunks| > 0 && |Split(chunks[0])| >= 2 ==> |chunks[0]| <= size - 1
    ensures forall i :: 0 <= i < |chunks| && |chunks[i]| > size ==> |Split(chunks[i])| == 1
  {
    var groups :| GreedyFrom(Split(text), groups, size, true) && chunks == JoinAll(groups);
    ChunksSplitToGroups(text, groups, size);
    forall i | 0 <= i < |chunks|
      ensures |groups[i]| >= 2 ==> |chunks[i]| + (if i == 0 then 1 else 0) <= size
    {
      assert chunks[i] == Join(groups[i], " ");
      if |groups[i]| >= 2 {
        assert PackedSize(groups[i], true && i == 0) <= size;
      }
    }
  }

  /** Splitting a chunk gives back the group of words it was joined from. */
  lemma {:induction false} ChunksSplitToGroups(text: string, groups: seq<seq<string>>, size: int)
    requires GreedyFrom(Split(text), groups, size, true)
    ensures forall i :: 0 <= i < |groups| ==> Split(JoinAll(groups)[i]) == groups[i]
  {
    GroupsHoldWords(text, groups);
    SplitAllJoinAll(groups);
    forall i | 0 <= i < |groups| ensures Split(JoinAll(groups)[i]) == groups[i] {
      assert SplitAll(JoinAll(groups))[i] == groups[i];
    }
  }

  /** The greedy packing is unique: the characterisation determines the groups. */
  lemma {:induction false} GreedyUnique(words: seq<string>, g1: seq<seq<string>>, g2: seq<seq<string>>, size: int, first: bool)
    requires GreedyFrom(words, g1, size, first) && GreedyFrom(words, g2, size, first)
    ensures g1 == g2
    decreases |words|
  {
    FlattenEmpty(g1);
    FlattenEmpty(g2);
    if words != [] {
      var a, b := g1[0], g2[0];
      assert words == a + Flatten(g1[1..]) && words == b + Flatten(g2[1..]);
      FirstGroupNotShorter(words, g1, g2, size, first);
      FirstGroupNotShorter(words, g2, g1, size, first);
      assert a == words[..|a|] == b;
      var rest := words[|a|..];
      assert Flatten(g1[1..]) == rest && Flatten(g2[1..]) == rest;
      GreedyTail(words, g1, size, first);
      GreedyTail(words, g2, size, first);
      GreedyUnique(rest, g1[1..], g2[1..], size, false);
    }
  }

  /** The first group of a greedy packing is at least as long as that of any other. */
  lemma {:induction false} FirstGroupNotShorter(words: seq<string>, g1: seq<seq<string>>, g2: seq<seq<string>>, size: int, first: bool)
    requires GreedyFrom(words, g1, size, first) && GreedyFrom(words, g2, size, first)
    requires g1 != [] && g2 != []
    ensures |g1[0]| >= |g2[0]|
  {
    var a, b := g1[0], g2[0];
    if |a| < |b| {
      assert words == a + Flatten(g1[1..]) && words == b + Flatten(g2[1..]);
      FlattenEmpty(g1[1..]);
      assert |g1| >= 2;
      assert a == words[..|a|] && b == words[..|b|];
      assert g1[1][0] == Flatten(g1[1..])[0] == words[|a|] == b[|a|];
      assert a == b[..|a|];
      assert b[..|a| + 1] == a + [b[|a|]];
      PackedSizeSnoc(a, b[|a|], first);
      JoinPrefixLength(b, |a| + 1);
      assert false;
    }
  }

  lemma {:induction false} GreedyTail(words: seq<string>, g: seq<seq<string>>, size: int, first: bool)
    requires GreedyFrom(words, g, size, first) && g != []
    ensures GreedyFrom(words[|g[0]|..], g[1..], size, false)
  {
    assert words == g[0] + Flatten(g[1..]);
    var t := g[1..];
    forall i | 0 <= i < |t| && |t[i]| >= 2 ensures PackedSize(t[i], false) <= size {
      assert t[i] == g[i + 1];
    }
    forall i | 0 <= i < |t| - 1 ensures PackedSize(t[i], false) + |t[i + 1][0]| + 1 > size {
      assert t[i] == g[i + 1] && t[i + 1] == g[i + 2];
    }
  }

  /** chunk_text's result is determined by its inputs. */
  lemma {:induction false} ChunkingUnique(text: string, c1: seq<string>, c2: seq<string>, size: int)
    requires IsChunkingOf(text, c1, size) && IsChunkingOf(text, c2, size)
    ensures c1 == c2
  {
    var g1 :| GreedyFrom(Split(text), g1, size, true) && c1 == JoinAll(g1);
    var g2 :| GreedyFrom(Split(text), g2, size, true) && c2 == JoinAll(g2);
    GreedyUnique(Split(text), g1, g2, size, true);
  }
}
