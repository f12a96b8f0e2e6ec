/** The command line of src/monitor.c: the line editor and the in-place tokenizer. */
module Monitor {
  import opened W = Words
  import Console

  const MAX_ARGS: int := 16
  const NUL: char := '\0'
  const BACKSPACE: char := '\U{0008}'
  const COMMANDS: seq<string> := ["help", "textcolor", "user"]

  predicate Space(c: char) {
    c == '\t' || c == '\r' || c == '\n' || c == ' '
  }

  predicate Stops(c: char) {
    c == NUL || Space(c)
  }

  predicate NulFree(s: string) {
    forall i :: 0 <= i < |s| ==> s[i] != NUL
  }

  // ----- words

  /** Length of the word `s` starts with. */
  function WordLen(s: string): (n: nat)
    ensures n <= |s| && (n < |s| ==> Space(s[n]))
    ensures forall i :: 0 <= i < n ==> !Space(s[i])
  {
    if s == [] || Space(s[0]) then 0 else 1 + WordLen(s[1..])
  }

  /** The whitespace-separated words of a line. */
  function Words(s: string): (ws: seq<string>)
    decreases |s|
  {
    if s == [] then []
    else if Space(s[0]) then Words(s[1..])
    else [s[..WordLen(s)]] + Words(s[WordLen(s)..])
  }

  predicate IsWord(w: string) {
    w != [] && forall i :: 0 <= i < |w| ==> !Stops(w[i])
  }

  /** The words with one space after each. */
  function Join(ws: seq<string>): (s: string) {
    if ws == [] then [] else ws[0] + " " + Join(ws[1..])
  }

  lemma {:induction false} WordLenAt(s: string, n: nat)
    requires n <= |s| && (n < |s| ==> Space(s[n]))
    requires forall i :: 0 <= i < n ==> !Space(s[i])
    ensures WordLen(s) == n
  {
    if n > 0 {
      WordLenAt(s[1..], n - 1);
    }
  }

  /** Splitting a joined line gives the words back. */
  lemma {:induction false} WordsOfJoin(ws: seq<string>)
    requires forall w :: w in ws ==> IsWord(w)
    ensures Words(Join(ws)) == ws
  {
    if ws != [] {
      var s, w := Join(ws), ws[0];
      assert IsWord(w) && s[..|w|] == w && s[|w|..] == " " + Join(ws[1..]);
      WordLenAt(s, |w|);
      assert s[|w|..][1..] == Join(ws[1..]);
      WordsOfJoin(ws[1..]);
    }
  }

  /** Words with gaps before, between and after them. */
  function Spread(ws: seq<string>, gaps: seq<string>): string
    requires |gaps| == |ws| + 1
  {
    gaps[0] + if ws == [] then "" else ws[0] + Spread(ws[1..], gaps[1..])
  }

  predicate AllIn(s: string, chars: string) { forall c :: c in s ==> c in chars }
  predicate NoneIn(s: string, chars: string) { forall c :: c in s ==> c !in chars }

  /** Words apart by any white space, one character or more, before and after which there may be
      more, are the words of the line. */
  lemma {:induction false} WordsOfSpread(ws: seq<string>, gaps: seq<string>)
    requires |gaps| == |ws| + 1
    requires forall i :: 0 <= i < |ws| ==> ws[i] != "" && NoneIn(ws[i], "\0\t\r\n ")
    requires forall i :: 0 <= i < |gaps| ==> AllIn(gaps[i], "\t\r\n ") && (0 < i < |ws| ==> gaps[i] != "")
    ensures Words(Spread(ws, gaps)) == ws
  {
    if ws == [] {
      assert gaps[0] + "" == gaps[0];
      LeadingSpace(gaps[0], "");
    } else {
      var rest := Spread(ws[1..], gaps[1..]);
      assert AllIn(gaps[0], "\t\r\n ");
      LeadingSpace(gaps[0], ws[0] + rest);
      forall i | 0 <= i < |gaps[1..]| ensures gaps[1..][i] == gaps[i + 1] {}
      forall i | 0 <= i < |ws[1..]| ensures ws[1..][i] == ws[i + 1] {}
      WordsOfSpread(ws[1..], gaps[1..]);
      GapStarts(ws, gaps);
      LeadingWord(ws[0], rest);
    }
  }

  lemma GapStarts(ws: seq<string>, gaps: seq<string>)
    requires |gaps| == |ws| + 1 && ws != [] && AllIn(gaps[1], "\t\r\n ") && (|ws| > 1 ==> gaps[1] != "")
    ensures var rest := Spread(ws[1..], gaps[1..]); rest != "" ==> Space(rest[0])
  {
    assert gaps[1] != "" ==> gaps[1][0] in gaps[1];
  }

  lemma {:induction false} LeadingSpace(gap: string, rest: string)
    requires AllIn(gap, "\t\r\n ")
    ensures Words(gap + rest) == Words(rest)
  {
    if gap == "" {
      assert gap + rest == rest;
    } else {
      assert gap[0] in gap && (gap + rest)[1..] == gap[1..] + rest;
      LeadingSpace(gap[1..], rest);
    }
  }

  lemma LeadingWord(w: string, rest: string)
    requires w != "" && NoneIn(w, "\0\t\r\n ") && (rest != "" ==> Space(rest[0]))
    ensures Words(w + rest) == [w] + Words(rest)
  {
    forall i | 0 <= i < |w| ensures !Space((w + rest)[i]) {
      assert (w + rest)[i] == w[i] && w[i] in w;
    }
    WordLenAt(w + rest, |w|);
    assert (w + rest)[..|w|] == w && (w + rest)[|w|..] == rest;
  }

  /** Each word of a line is a word, and together they hold the line's non-space characters. */
  lemma {:induction false} WordsAreWords(s: string)
    requires NulFree(s)
    ensures forall w :: w in Words(s) ==> IsWord(w)
    ensures Flat(Words(s)) == NonSpace(s)
    decreases |s|
  {
    if s != [] {
      if Space(s[0]) {
        WordsAreWords(s[1..]);
      } else {
        WordsAreWords(s[WordLen(s)..]);
        NonSpacePrefix(s, WordLen(s));
      }
    }
  }

  function Flat(ws: seq<string>): string {
    if ws == [] then [] else ws[0] + Flat(ws[1..])
  }

  function NonSpace(s: string): string {
    if s == [] then [] else (if Space(s[0]) then [] else [s[0]]) + NonSpace(s[1..])
  }

  lemma {:induction false} NonSpacePrefix(s: string, n: nat)
    requires n <= |s| && forall i :: 0 <= i < n ==> !Space(s[i])
    ensures NonSpace(s) == s[..n] + NonSpace(s[n..])
  {
    if n == 0 {
      assert s[..0] == [] && s[0..] == s;
    } else {
      NonSpacePrefix(s[1..], n - 1);
      assert s[1..][n - 1..] == s[n..] && s[..n] == [s[0]] + s[1..][..n - 1];
    }
  }

  // ----- C strings

  /** The C string at `a`: the characters up to the next NUL. */
  function CString(s: string, a: nat): (r: string)
    requires a <= |s|
    ensures a + |r| <= |s| && r == s[a..a + |r|] && NulFree(r)
    ensures a + |r| < |s| ==> s[a + |r|] == NUL
  {
    Before(s[a..], NUL)
  }

  lemma {:induction false} BeforeIs(s: string, n: nat)
    requires n < |s| && s[n] == NUL && NulFree(s[..n])
    ensures Before(s, NUL) == s[..n]
  {
    if n > 0 {
      assert s[..n][0] == s[0] && s[1..][..n - 1] == s[..n][1..];
      BeforeIs(s[1..], n - 1);
    }
  }

  lemma CStringIs(s: string, a: nat, r: string)
    requires a + |r| < |s| && s[a..a + |r|] == r && NulFree(r) && s[a + |r|] == NUL
    ensures CString(s, a) == r
  {
    assert s[a..][..|r|] == r;
    BeforeIs(s[a..], |r|);
  }

  /** What the monitor does with a line. */
  datatype Outcome = Nothing | TooMany | Run(command: nat, args: seq<string>) | Unknown(args: seq<string>)

  /** The first command of that name among those from `i` on. */
  function Lookup(name: string, i: nat): (k: nat)
    requires i <= |COMMANDS|
    ensures i <= k <= |COMMANDS|
    decreases |COMMANDS| - i
  {
    if i == |COMMANDS| || name == COMMANDS[i] then i else Lookup(name, i + 1)
  }

  function Dispatch(words: seq<string>): Outcome {
    if words == [] then Nothing
    else if |words| > MAX_ARGS - 1 then TooMany
    else if Lookup(words[0], 0) == |COMMANDS| then Unknown(words)
    else Run(Lookup(words[0], 0), words)
  }

  /** The three commands by name. */
  lemma CommandsByName(words: seq<string>)
    ensures words == [] ==> Dispatch(words) == Nothing
    ensures |words| > 15 ==> Dispatch(words) == TooMany
    ensures 0 < |words| <= 15 ==>
              Dispatch(words) == match words[0]
                                 case "help" => Run(0, words)
                                 case "textcolor" => Run(1, words)
                                 case "user" => Run(2, words)
                                 case _ => Unknown(words)
  {}

  /** The words found so far start at `args` and end by `p`, each followed by a NUL already or
      by a character at `p` that will become one. */
  ghost predicate Found(s: string, args: seq<nat>, words: seq<string>, p: nat) {
    && |args| == |words| && p <= |s|
    && forall i :: 0 <= i < |args| ==>
         && IsWord(words[i])
         && args[i] + |words[i]| <= p
         && s[args[i]..args[i] + |words[i]|] == words[i]
         && (args[i] + |words[i]| < p ==> s[args[i] + |words[i]|] == NUL)
         && (args[i] + |words[i]| == p < |s| ==> Stops(s[p]))
  }

  lemma FoundNext(s: string, args: seq<nat>, words: seq<string>, first: nat, p: nat)
    requires Found(s, args, words, first) && first < p < |s|
    requires IsWord(s[first..p]) && Stops(s[p])
    ensures Found(s, args + [first], words + [s[first..p]], p)
  {
    assert !Stops(s[first]) by { assert s[first] == s[first..p][0]; }
  }

  lemma FoundErase(s: string, args: seq<nat>, words: seq<string>, p: nat)
    requires Found(s, args, words, p) && p < |s|
    ensures Found(s[p := NUL], args, words, p + 1)
  {
    forall i | 0 <= i < |args|
      ensures s[p := NUL][args[i]..args[i] + |words[i]|] == words[i]
    {
      assert s[p := NUL][args[i]..args[i] + |words[i]|] == s[args[i]..args[i] + |words[i]|];
    }
  }

  lemma NextWord(s: string, first: nat, p: nat)
    requires first < p <= |s| && (p < |s| ==> Space(s[p]))
    requires forall i :: first <= i < p ==> !Space(s[i])
    ensures Words(s[first..]) == [s[first..p]] + Words(s[p..])
  {
    WordLenAt(s[first..], p - first);
    assert s[first..][..p - first] == s[first..p] && s[first..][p - first..] == s[p..];
  }

  lemma ScannedWord(line: string, s: string, first: nat, p: nat)
    requires first < p <= |line| < |s| && NulFree(line) && s[|line|] == NUL
    requires forall i :: first <= i < |line| ==> s[i] == line[i]
    requires Stops(s[p]) && forall i :: first <= i < p ==> !Stops(s[i])
    ensures line[first..p] == s[first..p] && IsWord(line[first..p])
    ensures Words(line[first..]) == [line[first..p]] + Words(line[p..])
  {
    hide Words;
    NextWord(line, first, p);
  }

  lemma NoneFound(s: string)
    ensures Found(s, [], [], 0) && Words([]) == []
  {}

  lemma MoreWords(s: string, p: nat)
    requires p < |s| && !Space(s[p])
    ensures Words(s[p..]) != []
  {}

  lemma NoWord(s: string, p: nat)
    requires p < |s| && Space(s[p])
    ensures Words(s[p..]) == Words(s[p + 1..])
  {
    assert s[p..][1..] == s[p + 1..];
  }

  lemma FoundStrings(s: string, args: seq<nat>, words: seq<string>, p: nat)
    requires Found(s, args, words, p) && p < |s| && s[p] == NUL
    ensures |args| == |words|
    ensures forall i :: 0 <= i < |args| ==>
            args[i] <= |s| && CString(s, args[i]) == words[i] && args[i] + |words[i]| < |s|
  {
    forall i | 0 <= i < |args|
      ensures args[i] <= |s| && CString(s, args[i]) == words[i]
    {
      CStringIs(s, args[i], words[i]);
    }
  }

  /** The arguments as a command reads them. */
  function Strings(s: string, args: seq<nat>): (r: seq<string>)
    requires forall i :: 0 <= i < |args| ==> args[i] <= |s|
    ensures |r| == |args| && forall i :: 0 <= i < |args| ==> r[i] == CString(s, args[i])
  {
    seq(|args|, i requires 0 <= i < |args| => CString(s, args[i]))
  }

  /** StringCmp against a name: zero if and only if the C string at `p` is the name. */
  method StringCmp(buf: array<char>, p: nat, name: string) returns (d: int)
    requires p <= buf.Length && NulFree(name) && p + |CString(buf[..], p)| < buf.Length
    ensures d == 0 <==> CString(buf[..], p) == name
  {
    ghost var s := CString(buf[..], p);
    var i := 0;
    while buf[p + i] != NUL && i < |name| && buf[p + i] == name[i]
      invariant i <= |s| && i <= |name| && s[..i] == name[..i]
      invariant forall k :: 0 <= k < |s| ==> buf[p + k] == s[k]
      decreases |name| - i
    {
      i := i + 1;
    }
    assert i < |s| ==> s[i] != NUL;
    var other := if i < |name| then name[i] else NUL;
    d := buf[p + i] as int - other as int;
    assert s == name ==> i == |s|;
    assert i == |s| == |name| ==> s == s[..i] && name == name[..i];
  }

  /** The second half of RunCommand: the first argument is looked up among the commands. */
  method FindCommand(buf: array<char>, argv: array<nat>, argc: nat, ghost words: seq<string>, ghost p: nat)
      returns (outcome: Outcome)
    requires argc <= argv.Length && argc < MAX_ARGS && p < buf.Length && buf[p] == NUL
    requires Found(buf[..], argv[..argc], words, p)
    ensures outcome == Dispatch(words)
  {
    hide Found, CString;
    FoundStrings(buf[..], argv[..argc], words, p);
    if argc == 0 {
      return Nothing;
    }
    var args := Strings(buf[..], argv[..argc]);
    assert args == words;
    var i := 0;
    while i < |COMMANDS|
      invariant 0 <= i <= |COMMANDS| && Lookup(words[0], 0) == Lookup(words[0], i)
    {
      var d := StringCmp(buf, argv[0], COMMANDS[i]);
      if d == 0 {
        return Run(i, args);
      }
      i := i + 1;
    }
    return Unknown(args);
  }

  /** RunCommand: `buf` holds a line of `n` characters and its NUL. */
  method RunCommand(buf: array<char>, ghost n: nat) returns (outcome: Outcome)
    requires n < buf.Length && NulFree(buf[..n]) && buf[n] == NUL
    modifies buf
    ensures outcome == Dispatch(Words(old(buf[..n])))
  {
    hide Found, Words, CString, Lookup, IsWord;
    ghost var line := buf[..n];
    ghost var words: seq<string> := [];
    var argv := new nat[MAX_ARGS];
    var argc, p := 0, 0;
    NoneFound(buf[..]);
    assert argv[..0] == [] && line[0..] == line;
    while true
      invariant argc == |words| <= MAX_ARGS - 1 && p <= n
      invariant buf[n] == NUL && forall i :: p <= i < n ==> buf[i] == line[i]
      invariant Found(buf[..], argv[..argc], words, p)
      invariant Words(line) == words + Words(line[p..])
      decreases n - p
    {
      while buf[p] != NUL && Space(buf[p])
        invariant p <= n
        invariant buf[n] == NUL && forall i :: p <= i < n ==> buf[i] == line[i]
        invariant Found(buf[..], argv[..argc], words, p)
        invariant Words(line) == words + Words(line[p..])
        decreases n - p
      {
        FoundErase(buf[..], argv[..argc], words, p);
        NoWord(line, p);
        buf[p] := NUL;
        p := p + 1;
      }
      if buf[p] == NUL {
        break;
      }
      if argc == MAX_ARGS - 1 {
        MoreWords(line, p);
        return TooMany;
      }
      ghost var args, first := argv[..argc], p;
      argv[argc] := p;
      argc := argc + 1;
      while buf[p] != NUL && !Space(buf[p])
        invariant first <= p <= n
        invariant forall i :: first <= i < p ==> !Stops(buf[i])
        decreases n - p
      {
        p := p + 1;
      }
      ScannedWord(line, buf[..], first, p);
      FoundNext(buf[..], args, words, first, p);
      assert argv[..argc] == args + [first];
      words := words + [line[first..p]];
    }
    assert p == n && line[p..] == [];
    NoneFound(buf[..]);
    outcome := FindCommand(buf, argv, argc, words, p);
  }

  // ----- the line editor

  /** A key that is neither the end of a line nor a backspace is dropped once 511 are held. */
  function Typed(line: string, ch: char): string {
    if ch == BACKSPACE then (if line == [] then [] else line[..|line| - 1])
    else if |line| < Console.CONSOLE_BUFFER_SIZE - 1 then line + [ch]
    else line
  }

  /** The unfinished line after some keys; GetChar's 0 means no key. */
  function Line(keys: string): (line: string)
    ensures |line| < Console.CONSOLE_BUFFER_SIZE && NulFree(line)
  {
    if keys == [] then []
    else
      var before, ch := Line(keys[..|keys| - 1]), keys[|keys| - 1];
      if ch == NUL then before else if ch == '\n' then [] else Typed(before, ch)
  }

  /** What the finished lines did. */
  function Outcomes(keys: string): seq<Outcome> {
    if keys == [] then []
    else
      var before := keys[..|keys| - 1];
      Outcomes(before) + if keys[|keys| - 1] == '\n' then [Dispatch(Words(Line(before)))] else []
  }

  predicate Plain(c: char) {
    c != NUL && c != '\n' && c != BACKSPACE
  }

  lemma {:induction false} PlainTyping(keys: string, text: string)
    requires forall i :: 0 <= i < |text| ==> Plain(text[i])
    requires |Line(keys)| + |text| < Console.CONSOLE_BUFFER_SIZE
    ensures Line(keys + text) == Line(keys) + text && Outcomes(keys + text) == Outcomes(keys)
  {
    hide Words, Dispatch;
    if text == [] {
      assert keys + text == keys && Line(keys) + text == Line(keys);
    } else {
      var t, c := text[..|text| - 1], text[|text| - 1];
      PlainTyping(keys, t);
      assert (keys + text)[..|keys + text| - 1] == keys + t;
      assert Plain(c) && Line(keys) + t + [c] == Line(keys) + text;
    }
  }

  /** From an empty line, typing words with a space after each, and a newline, runs the command
      they spell. */
  lemma TypedWordsRun(keys: string, ws: seq<string>)
    requires Line(keys) == [] && |Join(ws)| < Console.CONSOLE_BUFFER_SIZE
    requires forall w :: w in ws ==> IsWord(w) && BACKSPACE !in w
    ensures Outcomes(keys + Join(ws) + "\n") == Outcomes(keys) + [Dispatch(ws)]
    ensures Line(keys + Join(ws) + "\n") == []
  {
    JoinIsPlain(ws);
    PlainTyping(keys, Join(ws));
    WordsOfJoin(ws);
    var all := keys + Join(ws) + "\n";
    assert all[..|all| - 1] == keys + Join(ws);
    assert [] + Join(ws) == Join(ws);
  }

  lemma {:induction false} JoinIsPlain(ws: seq<string>)
    requires forall w :: w in ws ==> IsWord(w) && BACKSPACE !in w
    ensures forall i :: 0 <= i < |Join(ws)| ==> Plain(Join(ws)[i])
  {
    if ws != [] {
      assert IsWord(ws[0]) && BACKSPACE !in ws[0];
      JoinIsPlain(ws[1..]);
    }
  }

  /** A poll without a key, and a backspace on an empty line, change nothing. */
  lemma IdleKeys(keys: string)
    ensures Line(keys + "\0") == Line(keys) && Outcomes(keys + "\0") == Outcomes(keys)
    ensures Line(keys) == [] ==> Line(keys + [BACKSPACE]) == [] && Outcomes(keys + [BACKSPACE]) == Outcomes(keys)
  {}

  /** A backspace takes back the key before it if and only if that key was not dropped. */
  lemma BackspaceUndoesIff(keys: string, c: char)
    requires Plain(c)
    ensures Line(keys + [c] + [BACKSPACE]) == Line(keys) <==> |Line(keys)| < Console.CONSOLE_BUFFER_SIZE - 1
  {
    var once, twice := keys + [c], keys + [c] + [BACKSPACE];
    assert once[..|once| - 1] == keys && twice[..|twice| - 1] == once;
    assert Line(once) == Typed(Line(keys), c) && Line(twice) == Typed(Line(once), BACKSPACE);
  }

  class LineEditor {
    const buf: array<char>
    var index: int

    ghost predicate Valid()
      reads this
    {
      buf.Length == Console.CONSOLE_BUFFER_SIZE && 0 <= index < Console.CONSOLE_BUFFER_SIZE
    }

    constructor ()
      ensures Valid() && fresh(buf)
    {
      buf := new char[Console.CONSOLE_BUFFER_SIZE](_ => NUL);
      index := 0;
    }

    /** MonitorRun on the characters GetChar returns. */
    method MonitorRun(keys: string) returns (outcomes: seq<Outcome>)
      requires Valid()
      modifies this, buf
      ensures Valid() && buf[..index] == Line(keys) && outcomes == Outcomes(keys)
    {
      hide Words, Dispatch;
      index := 0;
      outcomes := [];
      for i := 0 to |keys|
        invariant Valid() && buf[..index] == Line(keys[..i]) && outcomes == Outcomes(keys[..i])
      {
        var ch := keys[i];
        assert keys[..i + 1][..i] == keys[..i];
        if ch != NUL {
          if ch == '\n' {
            ghost var line := buf[..index];
            buf[index] := NUL;
            assert buf[..index] == line;
            var outcome := RunCommand(buf, index);
            outcomes := outcomes + [outcome];
            index := 0;
          } else if ch == BACKSPACE {
            index := index - 1;
            if index < 0 {
              index := 0;
            }
          } else {
            if index < Console.CONSOLE_BUFFER_SIZE - 1 {
              buf[index] := ch;
              index := index + 1;
            }
          }
        }
      }
      assert keys[..|keys|] == keys;
    }
  }
}
