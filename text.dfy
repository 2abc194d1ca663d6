/** Python string operations the core relies on (str.isspace, str.lower,
    str.split(), ' '.join, str.strip, str.find, slicing), written out over
    `string` = `seq<char>`. */
module PyText {

  datatype Option<T> = None | Some(value: T)

  /** The characters Python's str.isspace() accepts, which are also the
      characters `\s` matches in a str regular expression. */
  predicate IsSpace(c: char)
  {
    c == ' ' || ('\t' <= c <= '\r') || ('\U{1c}' <= c <= '\U{1f}')
    || c == '\U{85}' || c == '\U{a0}' || c == '\U{1680}'
    || ('\U{2000}' <= c <= '\U{200a}') || c == '\U{2028}' || c == '\U{2029}'
    || c == '\U{202f}' || c == '\U{205f}' || c == '\U{3000}'
  }

  predicate NoSpace(s: string)
  {
    forall i :: 0 <= i < |s| ==> !IsSpace(s[i])
  }

  /** What str.split() produces: a non-empty run of non-whitespace characters. */
  predicate IsWord(w: string)
  {
    w != [] && NoSpace(w)
  }

  function LowerChar(c: char): char
  {
    if 'A' <= c <= 'Z' then (c as int + 32) as char else c
  }

  /** str.lower(), restricted to the ASCII letters. */
  function Lower(s: string): (r: string)
    ensures |r| == |s|
  {
    seq(|s|, i requires 0 <= i < |s| => LowerChar(s[i]))
  }

  predicate IsLowerCase(s: string)
  {
    forall i :: 0 <= i < |s| ==> !('A' <= s[i] <= 'Z')
  }

  lemma LowerIsLowerCase(s: string)
    ensures IsLowerCase(Lower(s))
  {
  }

  /** The longest prefix of `s` without whitespace. */
  function Word(s: string): (w: string)
    ensures |w| <= |s| && w == s[..|w|]
    ensures NoSpace(w)
    ensures |w| < |s| ==> IsSpace(s[|w|])
  {
    if s == [] || IsSpace(s[0]) then [] else [s[0]] + Word(s[1..])
  }

  /** str.split() with no argument: the maximal runs of non-whitespace, in order. */
  function Split(s: string): (ws: seq<string>)
    ensures forall i :: 0 <= i < |ws| ==> IsWord(ws[i])
    decreases |s|
  {
    if s == [] then []
    else if IsSpace(s[0]) then Split(s[1..])
    else
      var w := Word(s);
      assert |w| > 0;
      [w] + Split(s[|w|..])
  }

  /** sep.join(ws) */
  function Join(ws: seq<string>, sep: string): string
  {
    if |ws| == 0 then "" else if |ws| == 1 then ws[0] else ws[0] + sep + Join(ws[1..], sep)
  }

  function JoinAll(groups: seq<seq<string>>): (r: seq<string>)
    ensures |r| == |groups|
    ensures forall i :: 0 <= i < |groups| ==> r[i] == Join(groups[i], " ")
  {
    if groups == [] then [] else [Join(groups[0], " ")] + JoinAll(groups[1..])
  }

  function SplitAll(texts: seq<string>): (r: seq<seq<string>>)
    ensures |r| == |texts|
    ensures forall i :: 0 <= i < |texts| ==> r[i] == Split(texts[i])
  {
    if texts == [] then [] else [Split(texts[0])] + SplitAll(texts[1..])
  }

  function Flatten<T>(ss: seq<seq<T>>): seq<T>
  {
    if ss == [] then [] else ss[0] + Flatten(ss[1..])
  }

  lemma {:induction false} FlattenAppend<T>(a: seq<seq<T>>, b: seq<seq<T>>)
    ensures Flatten(a + b) == Flatten(a) + Flatten(b)
  {
    if a == [] {
      assert a + b == b;
    } else {
      assert (a + b)[1..] == a[1..] + b;
      FlattenAppend(a[1..], b);
    }
  }

  lemma {:induction false} JoinSnoc(ws: seq<string>, w: string, sep: string)
    requires ws != []
    ensures Join(ws + [w], sep) == Join(ws, sep) + sep + w
  {
    if |ws| == 1 {
      assert ws + [w] == [ws[0], w];
    } else {
      assert (ws + [w])[1..] == ws[1..] + [w];
      JoinSnoc(ws[1..], w, sep);
    }
  }

  /** The length of a prefix's join never exceeds the join of the whole. */
  lemma {:induction false} JoinPrefixLength(ws: seq<string>, k: nat)
    requires 1 <= k <= |ws|
    ensures |Join(ws[..k], " ")| <= |Join(ws, " ")|
    decreases |ws|
  {
    if k < |ws| {
      var init := ws[..|ws| - 1];
      var last := ws[|ws| - 1];
      assert ws == init + [last];
      JoinSnoc(init, last, " ");
      assert |Join(ws, " ")| == |Join(init, " ")| + 1 + |last|;
      assert ws[..k] == init[..k];
      JoinPrefixLength(init, k);
    } else {
      assert ws[..k] == ws;
    }
  }

  lemma {:induction false} WordOfPrefix(w: string, t: string)
    requires NoSpace(w)
    requires t == [] || IsSpace(t[0])
    ensures Word(w + t) == w
    decreases |w|
  {
    if w == [] {
      assert w + t == t;
    } else {
      assert (w + t)[1..] == w[1..] + t;
      WordOfPrefix(w[1..], t);
    }
  }

  /** Splitting words joined by single spaces gives the words back. */
  lemma {:induction false} SplitJoin(ws: seq<string>)
    requires forall i :: 0 <= i < |ws| ==> IsWord(ws[i])
    ensures Split(Join(ws, " ")) == ws
  {
    if |ws| == 1 {
      var w := ws[0];
      WordOfPrefix(w, []);
      assert w + [] == w;
      assert w[|w|..] == [];
    } else if |ws| > 1 {
      var w, rest := ws[0], Join(ws[1..], " ");
      var s := w + " " + rest;
      assert s == w + (" " + rest);
      WordOfPrefix(w, " " + rest);
      assert s[|w|..] == " " + rest;
      assert (" " + rest)[1..] == rest;
      SplitJoin(ws[1..]);
    }
  }

  lemma {:induction false} SplitAllJoinAll(groups: seq<seq<string>>)
    requires forall i, j :: 0 <= i < |groups| && 0 <= j < |groups[i]| ==> IsWord(groups[i][j])
    ensures SplitAll(JoinAll(groups)) == groups
  {
    forall i | 0 <= i < |groups|
      ensures SplitAll(JoinAll(groups))[i] == groups[i]
    {
      SplitJoin(groups[i]);
    }
  }

  /** A string with a non-whitespace character has at least one word. */
  lemma {:induction false} SplitNonEmpty(s: string, k: nat)
    requires k < |s| && !IsSpace(s[k])
    ensures Split(s) != []
    decreases |s|
  {
    if IsSpace(s[0]) {
      SplitNonEmpty(s[1..], k - 1);
    }
  }

  /** str.lstrip(): drop leading whitespace. */
  function TrimLeft(s: string): (r: string)
    ensures |r| <= |s| && r == s[|s| - |r|..]
    ensures forall i :: 0 <= i < |s| - |r| ==> IsSpace(s[i])
    ensures r == [] || !IsSpace(r[0])
  {
    if s != [] && IsSpace(s[0]) then TrimLeft(s[1..]) else s
  }

  /** str.rstrip(): drop trailing whitespace. */
  function TrimRight(s: string): (r: string)
    ensures |r| <= |s| && r == s[..|r|]
    ensures forall i :: |r| <= i < |s| ==> IsSpace(s[i])
    ensures r == [] || !IsSpace(r[|r| - 1])
  {
    if s != [] && IsSpace(s[|s| - 1]) then TrimRight(s[..|s| - 1]) else s
  }

  /** `s[a..b]` is `s` with only whitespace cut off at either end. */
  predicate OnlySpaceOutside(s: string, a: int, b: int)
  {
    0 <= a <= b <= |s|
    && (forall i :: 0 <= i < a ==> IsSpace(s[i]))
    && (forall i :: b <= i < |s| ==> IsSpace(s[i]))
  }

  /** str.strip(): no whitespace remains at either end, and only whitespace was removed. */
  function Strip(s: string): (r: string)
    ensures r == [] || (!IsSpace(r[0]) && !IsSpace(r[|r| - 1]))
    ensures forall c :: c in r ==> c in s
    ensures exists a, b :: OnlySpaceOutside(s, a, b) && r == s[a..b]
  {
    var t := TrimLeft(s);
    var r := TrimRight(t);
    var a := |s| - |t|;
    assert r != [] ==> r[0] == t[0];
    TrimmedOutside(s, t, r);
    r
  }

  /** Trimming both ends of `s` leaves a slice with only whitespace outside it. */
  lemma {:induction false} TrimmedOutside(s: string, t: string, r: string)
    requires t == TrimLeft(s) && r == TrimRight(t)
    ensures var a := |s| - |t|; OnlySpaceOutside(s, a, a + |r|) && r == s[a..a + |r|]
  {
    var a := |s| - |t|;
    assert t == s[a..];
    assert r == t[..|r|];
    forall i | a + |r| <= i < |s| ensures IsSpace(s[i]) {
      assert s[i] == t[i - a];
    }
  }

  /** Splitting ignores leading whitespace. */
  lemma {:induction false} SplitTrimLeft(s: string)
    ensures Split(TrimLeft(s)) == Split(s)
    decreases |s|
  {
    if s != [] && IsSpace(s[0]) {
      SplitTrimLeft(s[1..]);
    }
  }

  /** Splitting ignores one trailing whitespace character. */
  lemma {:induction false} SplitSnocSpace(x: string, c: char)
    requires IsSpace(c)
    ensures Split(x + [c]) == Split(x)
    decreases |x|
  {
    if x == [] {
      assert (x + [c])[1..] == [];
    } else if IsSpace(x[0]) {
      assert (x + [c])[1..] == x[1..] + [c];
      SplitSnocSpace(x[1..], c);
    } else {
      var w := Word(x);
      var rest := x[|w|..];
      assert x == w + rest;
      assert x + [c] == w + (rest + [c]);
      WordOfPrefix(w, rest + [c]);
      assert (x + [c])[|w|..] == rest + [c];
      SplitSnocSpace(rest, c);
    }
  }

  /** Splitting ignores trailing whitespace. */
  lemma {:induction false} SplitTrimRight(s: string)
    ensures Split(TrimRight(s)) == Split(s)
    decreases |s|
  {
    if s != [] && IsSpace(s[|s| - 1]) {
      var n := |s| - 1;
      assert s == s[..n] + [s[n]];
      SplitSnocSpace(s[..n], s[n]);
      SplitTrimRight(s[..n]);
    }
  }

  /** Stripping a text does not change its words. */
  lemma {:induction false} SplitStrip(s: string)
    ensures Split(Strip(s)) == Split(s)
  {
    SplitTrimLeft(s);
    SplitTrimRight(TrimLeft(s));
  }

  /** The words of a text that starts with the non-whitespace character `c`:
      `c` either forms a word of its own or is glued to the first word. */
  lemma {:induction false} SplitCons(c: char, x: string)
    requires !IsSpace(c)
    ensures x == [] || IsSpace(x[0]) ==> Split([c] + x) == [[c]] + Split(x)
    ensures x != [] && !IsSpace(x[0]) ==>
      Split(x) != [] && Split([c] + x) == [[c] + Split(x)[0]] + Split(x)[1..]
  {
    var s := [c] + x;
    assert s[1..] == x;
    var w := Word(x);
    assert Word(s) == [c] + w;
    assert s[|Word(s)|..] == x[|w|..];
    if x == [] || IsSpace(x[0]) {
      assert x[0..] == x;
    } else {
      assert Split(x) == [w] + Split(x[|w|..]);
    }
  }

  /** Text in the form `' '.join(words)`: whitespace occurs only as single
      plain spaces, each between two non-whitespace characters. */
  predicate SingleSpaced(t: string)
  {
    forall i :: 0 <= i < |t| && IsSpace(t[i]) ==>
      t[i] == ' ' && 0 < i < |t| - 1 && !IsSpace(t[i - 1]) && !IsSpace(t[i + 1])
  }

  /** A single-spaced text is the single-space join of its words. */
  lemma {:induction false} JoinSplitSingleSpaced(t: string)
    requires SingleSpaced(t)
    ensures Join(Split(t), " ") == t
    decreases |t|
  {
    if t != [] {
      var w := Word(t);
      assert |w| > 0;
      var k := |w|;
      if k == |t| {
        assert t[k..] == [];
        assert Split(t) == [w];
      } else {
        assert IsSpace(t[k]);
        var rest := t[k + 1..];
        assert SingleSpaced(rest) by {
          forall i | 0 <= i < |rest| && IsSpace(rest[i])
            ensures rest[i] == ' ' && 0 < i < |rest| - 1 && !IsSpace(rest[i - 1]) && !IsSpace(rest[i + 1])
          {
            assert rest[i] == t[k + 1 + i];
            assert rest[i - 1] == t[k + i];
            assert rest[i + 1] == t[k + 2 + i];
          }
        }
        JoinSplitSingleSpaced(rest);
        assert t[k..][1..] == rest;
        assert Split(t[k..]) == Split(rest);
        SplitNonEmpty(rest, 0);
        var ws := Split(rest);
        assert Split(t) == [w] + ws;
        assert ([w] + ws)[1..] == ws;
        assert Join([w] + ws, " ") == w + " " + Join(ws, " ");
        assert t == w + " " + rest;
      }
    }
  }

  predicate StartsWith(s: string, prefix: string)
  {
    prefix <= s
  }

  predicate EndsWith(s: string, suffix: string)
  {
    |suffix| <= |s| && s[|s| - |suffix|..] == suffix
  }

  /** `pat` occurs in `s` starting at index `j`. */
  predicate OccursAt(s: string, pat: string, j: int)
  {
    0 <= j && j + |pat| <= |s| && s[j..j + |pat|] == pat
  }

  /** str.find(pat): the lowest index where `pat` occurs in `s`, or -1. */
  function Find(s: string, pat: string): (k: int)
    ensures k >= -1
    ensures k >= 0 ==> OccursAt(s, pat, k)
    ensures forall j :: 0 <= j && (k < 0 || j < k) ==> !OccursAt(s, pat, j)
    decreases |s|
  {
    if |pat| > |s| then -1
    else if s[..|pat|] == pat then 0
    else
      var k := Find(s[1..], pat);
      assert forall j :: 1 <= j ==> (OccursAt(s, pat, j) <==> OccursAt(s[1..], pat, j - 1)) by {
        forall j | 1 <= j { OccursShift(s, pat, j); }
      }
      if k < 0 then -1 else k + 1
  }

  lemma {:induction false} OccursShift(s: string, pat: string, j: int)
    requires s != [] && 1 <= j
    ensures OccursAt(s, pat, j) <==> OccursAt(s[1..], pat, j - 1)
  {
    if j + |pat| <= |s| {
      assert s[1..][j - 1..j - 1 + |pat|] == s[j..j + |pat|];
    }
  }

  /** Python's `pat in s` for strings. */
  predicate Contains(s: string, pat: string)
  {
    Find(s, pat) >= 0
  }

  lemma ContainsAt(s: string, pat: string, k: nat)
    requires OccursAt(s, pat, k)
    ensures Contains(s, pat)
  {
  }

  lemma ContainsInSuffix(s: string, k: nat, pat: string)
    requires k <= |s| && Contains(s[k..], pat)
    ensures Contains(s, pat)
  {
    var m := Find(s[k..], pat);
    assert s[k..][m..m + |pat|] == s[k + m..k + m + |pat|];
    assert OccursAt(s, pat, k + m);
  }

  /** An occurrence inside `b` is an occurrence inside `a + b + c`, shifted by `|a|`. */
  lemma {:induction false} OccursInConcat(a: string, b: string, c: string, pat: string, p: int)
    requires OccursAt(b, pat, p)
    ensures OccursAt(a + b + c, pat, |a| + p)
  {
    assert (a + b + c)[|a| + p..|a| + p + |pat|] == b[p..p + |pat|];
  }

  /** Every word str.split() returns occurs in the string it came from. */
  lemma {:induction false} SplitWordsOccur(s: string)
    ensures forall i :: 0 <= i < |Split(s)| ==> Contains(s, Split(s)[i])
    decreases |s|
  {
    if s == [] {
    } else if IsSpace(s[0]) {
      SplitWordsOccur(s[1..]);
      assert Split(s) == Split(s[1..]);
      forall i | 0 <= i < |Split(s)| ensures Contains(s, Split(s)[i]) {
        assert Contains(s[1..], Split(s[1..])[i]);
        ContainsInSuffix(s, 1, Split(s)[i]);
      }
    } else {
      var w := Word(s);
      var t := s[|w|..];
      assert Split(s) == [w] + Split(t);
      SplitWordsOccur(t);
      assert OccursAt(s, w, 0);
      forall i | 1 <= i < |Split(s)| ensures Contains(s, Split(s)[i]) {
        assert Split(s)[i] == Split(t)[i - 1];
        ContainsInSuffix(s, |w|, Split(s)[i]);
      }
    }
  }

  /** Python's s[:k] for an int k (a negative k counts from the end). */
  function Take<T>(s: seq<T>, k: int): (r: seq<T>)
    ensures r <= s
    ensures k >= 0 ==> |r| == if k <= |s| then k else |s|
    ensures k < 0 ==> |r| == if |s| + k >= 0 then |s| + k else 0
  {
    if k >= 0 then (if k <= |s| then s[..k] else s)
    else if |s| + k >= 0 then s[..|s| + k]
    else []
  }

  function DigitChar(d: nat): char
    requires d < 10
  {
    ('0' as int + d) as char
  }

  /** str(n) for a non-negative int. */
  function NatToString(n: nat): (r: string)
    ensures r != []
    ensures forall i :: 0 <= i < |r| ==> '0' <= r[i] <= '9'
  {
    if n < 10 then [DigitChar(n)] else NatToString(n / 10) + [DigitChar(n % 10)]
  }

  /** int(s) for a string of decimal digits. */
  function DigitsValue(s: string): nat
    requires forall i :: 0 <= i < |s| ==> '0' <= s[i] <= '9'
  {
    if s == [] then 0 else 10 * DigitsValue(s[..|s| - 1]) + (s[|s| - 1] as int - '0' as int)
  }

  lemma {:induction false} NatToStringRoundTrip(n: nat)
    ensures DigitsValue(NatToString(n)) == n
  {
    if n >= 10 {
      var r := NatToString(n);
      assert r[..|r| - 1] == NatToString(n / 10);
      NatToStringRoundTrip(n / 10);
    }
  }
}
