/** The command language of the demo script's interactive mode: each input
    line is stripped and lower-cased, then classified by an if/elif chain. */
module DemoCommands {
  import opened PyText

  datatype Command =
    | Quit
    | Help
    | Health
    | Upload(filename: string, content: string)
    | UploadUsage
    | Ask(question: string)
    | Voice(question: string)
    | Unknown

  /** `line.strip().lower()`. */
  function Normalize(line: string): (c: string)
    ensures IsLowerCase(c)
    ensures c == [] || (!IsSpace(c[0]) && !IsSpace(c[|c| - 1]))
  {
    var s := Strip(line);
    LowerIsLowerCase(s);
    LowerKeepsEnds(s);
    Lower(s)
  }

  /** Lower-casing turns no character into whitespace. */
  lemma {:induction false} LowerKeepsEnds(s: string)
    requires s == [] || (!IsSpace(s[0]) && !IsSpace(s[|s| - 1]))
    ensures var c := Lower(s); c == [] || (!IsSpace(c[0]) && !IsSpace(c[|c| - 1]))
  {
    if s != [] {
      assert Lower(s)[0] == LowerChar(s[0]);
      assert Lower(s)[|s| - 1] == LowerChar(s[|s| - 1]);
    }
  }

  lemma {:induction false} SpaceAt(s: string, j: nat)
    requires j < |s|
    ensures OccursAt(s, " ", j) <==> s[j] == ' '
  {
    if s[j] == ' ' {
      assert s[j..j + 1] == " ";
    }
  }

  /** Python's `s.split(' ', maxsplit)`: cut at each single space, left to
      right, at most `maxsplit` times; empty pieces are kept. */
  function SplitAtSpace(s: string, maxsplit: nat): (parts: seq<string>)
    ensures 1 <= |parts| <= maxsplit + 1
    ensures Join(parts, " ") == s
    ensures forall i :: 0 <= i < |parts| - 1 ==> ' ' !in parts[i]
    ensures |parts| <= maxsplit ==> ' ' !in parts[|parts| - 1]
    decreases maxsplit
  {
    var k := Find(s, " ");
    if k < 0 then
      assert forall j :: 0 <= j < |s| ==> (OccursAt(s, " ", j) <==> s[j] == ' ') by {
        forall j | 0 <= j < |s| { SpaceAt(s, j); }
      }
      [s]
    else if maxsplit == 0 then [s]
    else
      var head := s[..k];
      assert ' ' !in head by {
        forall j | 0 <= j < k ensures s[j] != ' ' { SpaceAt(s, j); }
      }
      var rest := SplitAtSpace(s[k + 1..], maxsplit - 1);
      var parts := [head] + rest;
      assert parts[1..] == rest;
      assert Join(parts, " ") == head + " " + Join(rest, " ");
      assert s == head + " " + s[k + 1..];
      parts
  }

  /** The if/elif chain of the interactive loop, applied to one raw line.
      Classification happens after stripping and lower-casing, so every
      argument a command carries is lower-case, and a question or an upload's
      content is never empty and never ends in whitespace. */
  function ParseCommand(line: string): (r: Command)
    ensures r.Upload? ==> IsLowerCase(r.filename) && IsLowerCase(r.content)
    ensures r.Ask? ==> IsLowerCase(r.question)
    ensures r.Voice? ==> IsLowerCase(r.question)
    ensures r.Ask? ==> r.question != [] && !IsSpace(r.question[|r.question| - 1])
    ensures r.Voice? ==> r.question != [] && !IsSpace(r.question[|r.question| - 1])
    ensures r.Upload? ==> r.content != [] && !IsSpace(r.content[|r.content| - 1])
  {
    var c := Normalize(line);
    ClassifiedLowerCase(c);
    ClassifiedNotBlank(c);
    Classify(c)
  }

  /** The if/elif chain on a normalised line: the three exact keywords are
      recognised before any prefix command, an upload needs a space after
      its filename, and everything else is unknown. */
  function Classify(c: string): (r: Command)
    ensures r == Quit <==> c == "quit"
    ensures r == Help <==> c == "help"
    ensures r == Health <==> c == "health"
    ensures r.Upload? <==> StartsWith(c, "upload ") && ' ' in c[7..]
    ensures r == UploadUsage <==> StartsWith(c, "upload ") && ' ' !in c[7..]
    ensures StartsWith(c, "ask ") ==> r == Ask(c[4..])
    ensures r.Ask? ==> StartsWith(c, "ask ") && r.question == c[4..]
    ensures StartsWith(c, "voice ") ==> r == Voice(c[6..])
    ensures r.Voice? ==> StartsWith(c, "voice ") && r.question == c[6..]
    ensures r == Unknown <==>
      c != "quit" && c != "help" && c != "health"
      && !StartsWith(c, "upload ") && !StartsWith(c, "ask ") && !StartsWith(c, "voice ")
  {
    KeywordsExclusive(c);
    if c == "quit" then Quit
    else if c == "help" then Help
    else if c == "health" then Health
    else if StartsWith(c, "upload ") then ClassifyUpload(c)
    else if StartsWith(c, "ask ") then Ask(c[4..])
    else if StartsWith(c, "voice ") then Voice(c[6..])
    else Unknown
  }

  /** The keywords and command prefixes exclude one another. */
  lemma {:induction false} KeywordsExclusive(c: string)
    ensures StartsWith(c, "upload ") ==> c != "quit" && c != "help" && c != "health"
    ensures StartsWith(c, "ask ") ==>
      c != "quit" && c != "help" && c != "health" && !StartsWith(c, "upload ")
    ensures StartsWith(c, "voice ") ==>
      c != "quit" && c != "help" && c != "health"
      && !StartsWith(c, "upload ") && !StartsWith(c, "ask ")
  {
    if StartsWith(c, "upload ") {
      assert c[0] == 'u';
    }
    if StartsWith(c, "ask ") {
      assert c[0] == 'a' && c[3] == ' ';
    }
    if StartsWith(c, "voice ") {
      assert c[0] == 'v';
    }
  }

  /** The first space of a line starting with "upload " is the one after it. */
  lemma {:induction false} UploadFirstSpace(c: string)
    requires StartsWith(c, "upload ")
    ensures Find(c, " ") == 6
  {
    SpaceAt(c, 6);
  }

  /** A line starting with "upload " is cut first at the space after the
      keyword, and then at most once more. */
  lemma {:induction false} UploadParts(c: string)
    requires StartsWith(c, "upload ")
    ensures SplitAtSpace(c, 2) == ["upload"] + SplitAtSpace(c[7..], 1)
  {
    UploadFirstSpace(c);
    assert c[..6] == "upload";
  }

  /** `s.split(' ', 1)` has two parts exactly when `s` holds a space; they
      are the text before the first space and everything after it. */
  lemma {:induction false} SplitOnceParts(s: string)
    ensures var parts := SplitAtSpace(s, 1);
      |parts| == 2 <==> ' ' in s
    ensures var parts := SplitAtSpace(s, 1);
      |parts| == 2 ==> s == parts[0] + " " + parts[1] && ' ' !in parts[0]
  {
    var parts := SplitAtSpace(s, 1);
    if ' ' in s {
      var j :| 0 <= j < |s| && s[j] == ' ';
      SpaceAt(s, j);
      assert Find(s, " ") >= 0;
      assert |parts| == 2;
    }
  }

  /** The upload branch: `c.split(' ', 2)` needs three parts. A recognised
      upload is the keyword, the filename, a space and the content: the
      filename is the text up to the first space after the keyword, and the
      content is everything after it, inner spaces included. */
  function ClassifyUpload(c: string): (r: Command)
    requires StartsWith(c, "upload ")
    ensures r.Upload? <==> ' ' in c[7..]
    ensures !r.Upload? ==> r == UploadUsage
    ensures r.Upload? ==> c == "upload " + r.filename + " " + r.content && ' ' !in r.filename
  {
    var parts := SplitAtSpace(c, 2);
    UploadPartsShape(c);
    if |parts| >= 3 then Upload(parts[1], parts[2]) else UploadUsage
  }

  /** The parts `c.split(' ', 2)` yields for a line starting with "upload ". */
  lemma {:induction false} UploadPartsShape(c: string)
    requires StartsWith(c, "upload ")
    ensures var parts := SplitAtSpace(c, 2);
      (|parts| >= 3 <==> ' ' in c[7..])
      && (|parts| >= 3 ==> c == "upload " + parts[1] + " " + parts[2] && ' ' !in parts[1])
  {
    var rest := c[7..];
    var sub := SplitAtSpace(rest, 1);
    UploadParts(c);
    SplitOnceParts(rest);
    assert SplitAtSpace(c, 2) == ["upload"] + sub;
    if |sub| == 2 {
      UploadJoin(c, sub[0], sub[1]);
    }
  }

  lemma {:induction false} UploadJoin(c: string, filename: string, content: string)
    requires StartsWith(c, "upload ")
    requires c[7..] == filename + " " + content
    ensures c == "upload " + filename + " " + content
  {
    assert c == c[..7] + c[7..];
    assert c[..7] == "upload ";
  }

  /** Where the filename and the content of a recognised upload lie in the line. */
  lemma {:induction false} UploadSlices(c: string)
    ensures var r := Classify(c);
      r.Upload? ==> r.filename == c[7..7 + |r.filename|] && r.content == c[8 + |r.filename|..]
  {
    var r := Classify(c);
    if r.Upload? {
      PartsAt(c, r.filename, r.content);
    }
  }

  lemma {:induction false} PartsAt(c: string, filename: string, content: string)
    requires c == "upload " + filename + " " + content
    ensures filename == c[7..7 + |filename|] && content == c[8 + |filename|..]
  {
    assert c == "upload " + (filename + " " + content);
    assert c[7..] == filename + " " + content;
  }

  /** Every argument a command carries is a slice of the normalised line. */
  lemma {:induction false} ClassifiedLowerCase(c: string)
    requires IsLowerCase(c)
    ensures var r := Classify(c);
      (r.Upload? ==> IsLowerCase(r.filename) && IsLowerCase(r.content))
      && (r.Ask? ==> IsLowerCase(r.question))
      && (r.Voice? ==> IsLowerCase(r.question))
  {
    var r := Classify(c);
    if r.Upload? {
      UploadLowerCase(c, r.filename, r.content);
    } else if StartsWith(c, "ask ") {
      LowerCaseSlice(c, 4, |c|);
      assert c[4..|c|] == c[4..];
    } else if StartsWith(c, "voice ") {
      LowerCaseSlice(c, 6, |c|);
      assert c[6..|c|] == c[6..];
    }
  }

  lemma {:induction false} UploadLowerCase(c: string, filename: string, content: string)
    requires IsLowerCase(c)
    requires c == "upload " + filename + " " + content
    ensures IsLowerCase(filename) && IsLowerCase(content)
  {
    assert forall k :: 0 <= k < |filename| ==> filename[k] == c[7 + k];
    assert forall k :: 0 <= k < |content| ==> content[k] == c[8 + |filename| + k];
  }

  lemma {:induction false} LowerCaseSlice(s: string, i: nat, j: nat)
    requires IsLowerCase(s) && i <= j <= |s|
    ensures IsLowerCase(s[i..j])
  {
    assert forall k :: 0 <= k < j - i ==> s[i..j][k] == s[i + k];
  }

  /** A question or an upload's content ends where the normalised line ends. */
  lemma {:induction false} ClassifiedNotBlank(c: string)
    requires c == [] || !IsSpace(c[|c| - 1])
    ensures var r := Classify(c);
      (r.Ask? ==> r.question != [] && !IsSpace(r.question[|r.question| - 1]))
      && (r.Voice? ==> r.question != [] && !IsSpace(r.question[|r.question| - 1]))
      && (r.Upload? ==> r.content != [] && !IsSpace(r.content[|r.content| - 1]))
  {
    var r := Classify(c);
    if r.Upload? {
      assert r.content != [];
      assert c[|c| - 1] == r.content[|r.content| - 1];
    } else if r.Ask? {
      assert c[|c| - 1] != ' ';
      assert r.question[|r.question| - 1] == c[|c| - 1];
    } else if r.Voice? {
      assert c[|c| - 1] != ' ';
      assert r.question[|r.question| - 1] == c[|c| - 1];
    }
  }

  /** A bare "upload", "ask" or "voice", with or without surrounding
      whitespace and in any case, is an unknown command. */
  lemma {:induction false} BareKeywordsUnknown(line: string)
    requires Normalize(line) in ["upload", "ask", "voice"]
    ensures ParseCommand(line) == Unknown
  {
    var c := Normalize(line);
    assert !StartsWith(c, "upload ") && !StartsWith(c, "ask ") && !StartsWith(c, "voice ");
  }

  /** The command of every line, in order. */
  function ParseAll(lines: seq<string>): (commands: seq<Command>)
    ensures |commands| == |lines|
    ensures forall i :: 0 <= i < |lines| ==> commands[i] == ParseCommand(lines[i])
  {
    seq(|lines|, i requires 0 <= i < |lines| => ParseCommand(lines[i]))
  }

  /** The commands handled before the loop ends: all of them up to and
      including the first "quit". */
  function UpToQuit(commands: seq<Command>): seq<Command>
  {
    if commands == [] then []
    else if commands[0].Quit? then [commands[0]]
    else [commands[0]] + UpToQuit(commands[1..])
  }

  /** What interactive_mode handles for a finite script of input lines. */
  function Session(lines: seq<string>): seq<Command>
  {
    UpToQuit(ParseAll(lines))
  }

  /** The handled commands are a prefix of the commands, none of them "quit"
      but possibly the last, and the prefix is shorter only when it ends in
      "quit". */
  lemma {:induction false} UpToQuitStops(commands: seq<Command>)
    ensures var handled := UpToQuit(commands);
      |handled| <= |commands| && handled == commands[..|handled|]
      && (forall i :: 0 <= i < |handled| - 1 ==> !handled[i].Quit?)
      && (|handled| < |commands| ==> handled != [] && handled[|handled| - 1].Quit?)
  {
    if commands != [] && !commands[0].Quit? {
      UpToQuitStops(commands[1..]);
      var rest := UpToQuit(commands[1..]);
      var handled := [commands[0]] + rest;
      assert commands == [commands[0]] + commands[1..];
      assert commands[1..][..|rest|] == rest;
      assert handled == commands[..|handled|];
      forall i | 1 <= i < |handled| - 1 ensures !handled[i].Quit? {
        assert handled[i] == rest[i - 1];
      }
    }
  }

  /** interactive_mode over a finite script of input lines. */
  method Interact(lines: seq<string>) returns (handled: seq<Command>)
    ensures handled == Session(lines)
  {
    ghost var commands := ParseAll(lines);
    handled := [];
    var i := 0;
    while i < |lines|
      invariant 0 <= i <= |lines|
      invariant handled + UpToQuit(commands[i..]) == UpToQuit(commands)
    {
      var command := ParseCommand(lines[i]);
      assert commands[i..][0] == command && commands[i..][1..] == commands[i + 1..];
      if command.Quit? {
        handled := handled + [command];
        return;
      }
      handled := handled + [command];
      i := i + 1;
    }
  }
}
