/** The registry file (pm-list.txt): the line parser of loadPmList, the loop
    that collects the parsed entries, and the line that `minipm run` appends. */
module Registry {
  import opened Text

  /** One managed entry: a name (log-file prefix) and the shell command line. */
  datatype Command = Command(name: string, cmd: string)

  /** What os.OpenFile(path, O_RDONLY|O_CREATE, 0644) reported. */
  datatype OpenResult = Opened | NotExist | OpenError(reason: string)

  /** The two errors loadPmList returns. */
  datatype LoadError = OpenFailed(path: string, reason: string) | ScanFailed(reason: string)

  /** A line that loadPmList skips. */
  predicate Blank(text: string) {
    TrimSpace(text) == []
  }

  /** Two space-free prefixes of `line` that each end at a ' ' or at the end
      of `line` are the same prefix. */
  lemma FirstWordUnique(line: string, p: string, q: string)
    requires |p| <= |line| && p == line[..|p|] && ' ' !in p && (|p| == |line| || line[|p|] == ' ')
    requires |q| <= |line| && q == line[..|q|] && ' ' !in q && (|q| == |line| || line[|q|] == ' ')
    ensures p == q
  {
  }

  /** One scanned line: nothing when it is blank after trimming; otherwise
      the name is the first ' '-separated piece of the trimmed line and the
      command is what a single replacement of the name leaves, trimmed. */
  function ParseLine(text: string): (r: Option<Command>)
    ensures r.None? <==> Blank(text)
  {
    var line := TrimSpace(text);
    if line == [] then None
    else
      var name := Split(line, ' ')[0];
      Some(Command(name, TrimSpace(ReplaceFirst(line, name, []))))
  }

  /** What a parsed line is: the name is the trimmed line up to its first ' '
      (so non-empty and space-free), and the command is the rest of the
      trimmed line, trimmed again, because the one replacement always hits the
      name at index 0. */
  lemma ParseLineSpec(text: string)
    requires !Blank(text)
    ensures ParseLine(text).Some?
    ensures var line, n := TrimSpace(text), ParseLine(text).value.name;
      n != [] && ' ' !in n && |n| <= |line| && n == line[..|n|] && (|n| == |line| || line[|n|] == ' ') &&
      ParseLine(text).value.cmd == TrimSpace(line[|n|..])
  {
    var line := TrimSpace(text);
    SplitFirst(line, ' ');
    var name := Split(line, ' ')[0];
    ReplacePrefix(line, name);
  }

  /** The entries one scanned line contributes: none or one. */
  function Parsed(text: string): seq<Command>
  {
    match ParseLine(text)
    case None => []
    case Some(c) => [c]
  }

  /** The results of `f` on each line, concatenated in line order. */
  function FlatMap<T>(lines: seq<string>, f: string -> seq<T>): seq<T>
  {
    if lines == [] then []
    else FlatMap(lines[..|lines| - 1], f) + f(lines[|lines| - 1])
  }

  lemma {:induction false} FlatMapAppend<T>(a: seq<string>, b: seq<string>, f: string -> seq<T>)
    ensures FlatMap(a + b, f) == FlatMap(a, f) + FlatMap(b, f)
    decreases |b|
  {
    if b == [] {
      assert a + b == a;
    } else {
      assert (a + b)[..|a + b| - 1] == a + b[..|b| - 1];
      FlatMapAppend(a, b[..|b| - 1], f);
    }
  }

  /** The entries of a sequence of scanned lines, appended in scan order. */
  function ParseLines(lines: seq<string>): seq<Command>
  {
    FlatMap(lines, Parsed)
  }

  /** The lines that are not blank, in order. */
  function NonBlank(lines: seq<string>): seq<string>
  {
    if lines == [] then []
    else NonBlank(lines[..|lines| - 1]) + (if Blank(lines[|lines| - 1]) then [] else [lines[|lines| - 1]])
  }

  /** Parsing distributes over concatenation: the entries of a file are the
      entries of its first part followed by those of the rest. */
  lemma {:induction false} ParseLinesAppend(a: seq<string>, b: seq<string>)
    ensures ParseLines(a + b) == ParseLines(a) + ParseLines(b)
  {
    FlatMapAppend(a, b, Parsed);
  }

  /** Every non-blank line yields exactly one entry, blank lines yield none,
      and the entries follow the order of the lines. */
  lemma {:induction false} ParseLinesIsNonBlankParsed(lines: seq<string>)
    ensures |ParseLines(lines)| == |NonBlank(lines)|
    ensures forall k :: 0 <= k < |NonBlank(lines)| ==>
      !Blank(NonBlank(lines)[k]) && ParseLine(NonBlank(lines)[k]) == Some(ParseLines(lines)[k])
  {
    if lines != [] {
      ParseLinesIsNonBlankParsed(lines[..|lines| - 1]);
    }
  }

  /** loadPmList: open the registry, then append the entry of every scanned
      line. `tokens` are the lines the scanner produced before it stopped and
      `scanErr` is scanner.Err(); the entries scanned before a read error are
      returned together with that error. A registry that does not exist gives
      no entries and no error. */
  method LoadPmList(path: string, open: OpenResult, tokens: seq<string>, scanErr: Option<string>)
    returns (pmList: seq<Command>, err: Option<LoadError>)
    ensures open.Opened? ==> pmList == ParseLines(tokens)
    ensures open.Opened? ==> err == (if scanErr.Some? then Some(ScanFailed(scanErr.value)) else None)
    ensures open.NotExist? ==> pmList == [] && err == None
    ensures open.OpenError? ==> pmList == [] && err == Some(OpenFailed(path, open.reason))
  {
    pmList := [];
    match open {
      case NotExist =>
        return pmList, None;
      case OpenError(reason) =>
        return pmList, Some(OpenFailed(path, reason));
      case Opened =>
    }
    var i := 0;
    while i < |tokens|
      invariant 0 <= i <= |tokens|
      invariant pmList == ParseLines(tokens[..i])
    {
      assert tokens[..i + 1][..i] == tokens[..i];
      match ParseLine(tokens[i]) {
        case None =>
        case Some(c) =>
          pmList := pmList + [c];
      }
      i := i + 1;
    }
    assert tokens[..i] == tokens;
    err := if scanErr.Some? then Some(ScanFailed(scanErr.value)) else None;
  }

  /** The line `minipm run <args...>` appends to the registry: `base`, a space,
      the arguments joined by single spaces, and a newline. `base` stands for
      filepath.Base of the first argument. */
  function RunLine(base: string, args: seq<string>): string
  {
    base + " " + Join(args, " ") + "\n"
  }

  /** A single newline-terminated line loads as the entries of that line. */
  lemma LoadOneLine(x: string)
    requires '\n' !in x
    ensures ParseLines(ScanLines(x + "\n")) == Parsed(x)
  {
    ScanOneLine(x);
    assert ParseLines([DropCR(x)]) == ParseLines([]) + Parsed(DropCR(x));
    TrimSpaceDropCR(x);
  }

  /** A blank command leaves only the name after trimming. */
  lemma TrimLineBlankCommand(name: string, cmd: string)
    requires name != [] && NoSpace(name) && AllSpace(cmd)
    ensures TrimSpace(name + " " + cmd) == name
  {
    AllSpaceConcat(" ", cmd);
    assert name + " " + cmd == name + (" " + cmd);
    TrimSpaceAppendSpace(name, " " + cmd);
    assert !IsSpace(name[0]) && !IsSpace(name[|name| - 1]);
    TrimSpaceOfTrimmed(name);
  }

  /** Otherwise trimming drops only the whitespace after the command. */
  lemma TrimLineCommand(name: string, lead: string, m: string, trail: string)
    requires name != [] && NoSpace(name) && m != [] && Trimmed(m) && AllSpace(trail)
    ensures TrimSpace(name + " " + lead + m + trail) == name + " " + lead + m
  {
    var line := name + " " + lead + m;
    TrimSpaceAppendSpace(line, trail);
    assert line[0] == name[0] && line[|line| - 1] == m[|m| - 1];
    assert !IsSpace(name[0]);
    TrimSpaceOfTrimmed(line);
  }

  /** Trimming `name cmd` keeps the name and the command up to the end of
      its trimmed part. */
  lemma TrimWrittenLine(name: string, cmd: string)
    requires name != [] && NoSpace(name)
    ensures var m := TrimSpace(cmd);
      TrimSpace(name + " " + cmd) == if m == [] then name else name + " " + cmd[..LeadingSpace(cmd)] + m
  {
    var l, m := LeadingSpace(cmd), TrimSpace(cmd);
    TrimSpaceSplits(cmd);
    var lead, trail := cmd[..l], cmd[l + |m|..];
    AppendAssoc(name + " ", lead + m, trail);
    AppendAssoc(name + " ", lead, m);
    if m == [] {
      assert cmd == lead + trail;
      AllSpaceConcat(lead, trail);
      TrimLineBlankCommand(name, cmd);
    } else {
      TrimLineCommand(name, lead, m, trail);
    }
  }

  /** The command part of `name cmd`, once trimmed, is the trimmed `cmd`. */
  lemma TrimCommandPart(cmd: string)
    ensures var m := TrimSpace(cmd);
      m != [] ==> TrimSpace(" " + cmd[..LeadingSpace(cmd)] + m) == m
  {
    var l, m := LeadingSpace(cmd), TrimSpace(cmd);
    if m != [] {
      AllSpaceConcat(" ", cmd[..l]);
      assert " " + cmd[..l] + m == (" " + cmd[..l]) + m + [];
      TrimSpaceOf(" " + cmd[..l], m, []);
    }
  }

  /** Once the trimmed line is known to be a space-free word followed by
      nothing or by a ' ', the parse is that word and the trimmed rest. */
  lemma ParseLineOfWord(x: string, name: string, rest: string)
    requires TrimSpace(x) == name + rest && name != [] && ' ' !in name
    requires rest == [] || rest[0] == ' '
    ensures ParseLine(x) == Some(Command(name, TrimSpace(rest)))
  {
    var line := TrimSpace(x);
    assert line[..|name|] == name && line[|name|..] == rest;
    ParseLineSpec(x);
    FirstWordUnique(line, ParseLine(x).value.name, name);
  }

  lemma NoSpaceExcludes(s: string, c: char)
    requires NoSpace(s) && IsSpace(c)
    ensures c !in s
  {
  }

  lemma ParseNameAndBlankCommand(name: string, cmd: string)
    requires name != [] && NoSpace(name) && TrimSpace(cmd) == []
    ensures ParseLine(name + " " + cmd) == Some(Command(name, []))
  {
    TrimWrittenLine(name, cmd);
    NoSpaceExcludes(name, ' ');
    assert name + [] == name;
    ParseLineOfWord(name + " " + cmd, name, []);
  }

  lemma ParseNameAndNonBlankCommand(name: string, cmd: string)
    requires name != [] && NoSpace(name) && TrimSpace(cmd) != []
    ensures ParseLine(name + " " + cmd) == Some(Command(name, TrimSpace(cmd)))
  {
    var m := TrimSpace(cmd);
    TrimWrittenLine(name, cmd);
    NoSpaceExcludes(name, ' ');
    var rest := " " + cmd[..LeadingSpace(cmd)] + m;
    var lead := cmd[..LeadingSpace(cmd)];
    AppendAssoc(name + " ", lead, m);
    AppendAssoc(name, " ", lead + m);
    AppendAssoc(" ", lead, m);
    ParseLineOfWord(name + " " + cmd, name, rest);
    TrimCommandPart(cmd);
  }

  /** Parsing `name cmd` gives back `name` and the trimmed `cmd` whenever the
      name is non-empty and has no whitespace. */
  lemma ParseNameAndCommand(name: string, cmd: string)
    requires name != [] && NoSpace(name)
    ensures ParseLine(name + " " + cmd) == Some(Command(name, TrimSpace(cmd)))
  {
    if TrimSpace(cmd) == [] {
      ParseNameAndBlankCommand(name, cmd);
    } else {
      ParseNameAndNonBlankCommand(name, cmd);
    }
  }

  /** The line `name cmd` newline loads as exactly one entry (name, trimmed cmd). */
  lemma LoadWrittenLine(name: string, cmd: string)
    requires name != [] && NoSpace(name) && '\n' !in cmd
    ensures ParseLines(ScanLines(name + " " + cmd + "\n")) == [Command(name, TrimSpace(cmd))]
  {
    LoadOneLine(name + " " + cmd);
    ParseNameAndCommand(name, cmd);
  }

  /** Round trip of `minipm run`: the registry line it writes loads as one
      entry named `base` whose command is the joined arguments, trimmed,
      provided `base` is non-empty without whitespace and no argument holds
      a newline. */
  lemma RunLineRoundTrip(base: string, args: seq<string>)
    requires base != [] && NoSpace(base) && '\n' !in Join(args, " ")
    ensures ParseLines(ScanLines(RunLine(base, args))) == [Command(base, TrimSpace(Join(args, " ")))]
  {
    LoadWrittenLine(base, Join(args, " "));
  }

  /** Appending a `minipm run` line to a registry made of complete lines adds
      exactly that entry after the existing ones, and the file still ends in
      a newline. */
  lemma AppendThenLoad(file: string, base: string, args: seq<string>)
    requires file == [] || file[|file| - 1] == '\n'
    requires base != [] && NoSpace(base) && '\n' !in Join(args, " ")
    ensures ParseLines(ScanLines(file + RunLine(base, args))) ==
      ParseLines(ScanLines(file)) + [Command(base, TrimSpace(Join(args, " ")))]
    ensures (file + RunLine(base, args))[|file + RunLine(base, args)| - 1] == '\n'
  {
    ScanLinesAppend(file, RunLine(base, args));
    ParseLinesAppend(ScanLines(file), ScanLines(RunLine(base, args)));
    RunLineRoundTrip(base, args);
  }

  /** A quoted first argument of two words `w1 w2` without '/' (the usage
      example `minipm run "python3 myscript.py"`): its last path element is
      the whole argument, so filepath.Base returns it with its space and the
      written line is `w1 w2 w1 w2`, which loads as an entry named `w1` whose
      command is `w2 w1 w2`, not the command that was asked for. */
  lemma QuotedArgumentBreaksRoundTrip(w1: string, w2: string)
    requires w1 != [] && NoSpace(w1) && w2 != [] && NoSpace(w2)
    requires '/' !in w1 && '/' !in w2
    ensures var arg := w1 + " " + w2;
      ParseLines(ScanLines(RunLine(arg, [arg]))) == [Command(w1, w2 + " " + arg)] &&
      w2 + " " + arg != TrimSpace(Join([arg], " "))
  {
    var arg := w1 + " " + w2;
    var cmd := w2 + " " + arg;
    assert Join([arg], " ") == arg;
    assert RunLine(arg, [arg]) == w1 + " " + cmd + "\n";
    NoSpaceExcludes(w1, '\n');
    NoSpaceExcludes(w2, '\n');
    assert '\n' !in cmd;
    LoadWrittenLine(w1, cmd);
    assert cmd[0] == w2[0] && cmd[|cmd| - 1] == w2[|w2| - 1];
    TrimSpaceOfTrimmed(cmd);
    assert arg[0] == w1[0] && arg[|arg| - 1] == w2[|w2| - 1];
    TrimSpaceOfTrimmed(arg);
    assert |cmd| > |arg|;
  }

  /** The usage example itself. */
  lemma HelpExampleBreaksRoundTrip()
    ensures var arg := "python3" + " " + "myscript.py";
      ParseLines(ScanLines(RunLine(arg, [arg]))) == [Command("python3", "myscript.py" + " " + arg)]
  {
    assert NoSpace("python3") && NoSpace("myscript.py");
    assert '/' !in "python3" && '/' !in "myscript.py";
    QuotedArgumentBreaksRoundTrip("python3", "myscript.py");
  }

  /** Length of the run of non-whitespace at the start of `s`. */
  function WordLength(s: string): (n: nat)
    ensures n <= |s| && NoSpace(s[..n])
    ensures n < |s| ==> IsSpace(s[n])
  {
    if s != [] && !IsSpace(s[0]) then
      var n := 1 + WordLength(s[1..]);
      assert s[..n] == [s[0]] + s[1..][..n - 1];
      n
    else 0
  }

  /** strings.Fields(s)[0]: the first whitespace-free field of `s`, empty only
      when `s` is all whitespace. */
  function FirstField(s: string): (f: string)
    ensures NoSpace(f)
    ensures f == [] <==> Blank(s)
  {
    var t := s[LeadingSpace(s)..];
    t[..WordLength(t)]
  }

  /** The registry line with the name taken from the first field of `base`,
      so that the name never holds whitespace. */
  function FixedRunLine(base: string, args: seq<string>): string
  {
    FirstField(base) + " " + Join(args, " ") + "\n"
  }

  /** With the fixed line the round trip holds for every `base` that is not
      all whitespace, quoted multi-word arguments included: the entry's command
      is exactly the joined arguments, trimmed. */
  lemma FixedRunLineRoundTrip(base: string, args: seq<string>)
    requires !Blank(base) && '\n' !in Join(args, " ")
    ensures ParseLines(ScanLines(FixedRunLine(base, args))) == [Command(FirstField(base), TrimSpace(Join(args, " ")))]
  {
    LoadWrittenLine(FirstField(base), Join(args, " "));
  }

  /** A space-free word followed by whitespace or nothing is the first field. */
  lemma {:induction false} WordLengthOfWord(w: string, rest: string)
    requires NoSpace(w) && (rest == [] || IsSpace(rest[0]))
    ensures WordLength(w + rest) == |w|
  {
    if w == [] {
      assert w + rest == rest;
    } else {
      assert (w + rest)[1..] == w[1..] + rest;
      WordLengthOfWord(w[1..], rest);
    }
  }

  /** The first field of a two-word argument `w1 w2` is `w1`. */
  lemma FirstFieldOfWords(w1: string, w2: string)
    requires w1 != [] && NoSpace(w1) && w2 != [] && NoSpace(w2)
    ensures FirstField(w1 + " " + w2) == w1
  {
    var arg := w1 + " " + w2;
    assert arg == w1 + (" " + w2);
    WordLengthOfWord(w1, " " + w2);
    assert LeadingSpace(arg) == 0;
    assert arg[0..] == arg;
  }

  /** A two-word argument `w1 w2` is already trimmed and holds no newline. */
  lemma TrimmedWords(w1: string, w2: string)
    requires w1 != [] && NoSpace(w1) && w2 != [] && NoSpace(w2)
    ensures TrimSpace(w1 + " " + w2) == w1 + " " + w2 && '\n' !in w1 + " " + w2
  {
    var arg := w1 + " " + w2;
    NoSpaceExcludes(w1, '\n');
    NoSpaceExcludes(w2, '\n');
    assert arg[0] == w1[0] && arg[|arg| - 1] == w2[|w2| - 1];
    TrimSpaceOfTrimmed(arg);
  }

  /** Under the fixed line a quoted two-word argument loads as the command
      asked for, named after its first word. */
  lemma FixedQuotedArgument(w1: string, w2: string)
    requires w1 != [] && NoSpace(w1) && w2 != [] && NoSpace(w2)
    requires '/' !in w1 && '/' !in w2
    ensures var arg := w1 + " " + w2;
      ParseLines(ScanLines(FixedRunLine(arg, [arg]))) == [Command(w1, arg)]
  {
    var arg := w1 + " " + w2;
    FirstFieldOfWords(w1, w2);
    TrimmedWords(w1, w2);
    assert Join([arg], " ") == arg;
    FixedRunLineRoundTrip(arg, [arg]);
  }
}
