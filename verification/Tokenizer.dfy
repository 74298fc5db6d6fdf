/** `shell_parse_args` of shell.c, on the line and the argument vector in place. */
module Tokenizer {
  import opened Prelude
  import opened TokenizerSpec

  /** A pointer into the line is a place in it; this is the null pointer. */
  const NULL_ARG := -1

  /** A NUL-terminated string of this length. */
  ghost predicate IsCString(line: array<char>, length: nat)
    reads line
  {
    length < line.Length && line[length] == NUL && NUL !in line[..length]
  }

  function ModeOf(inArg: bool, inQuote: bool, quote: char): Mode {
    if inQuote then InQuote(quote) else if inArg then InArg else Between
  }

  ghost predicate Points(argv: seq<int>, starts: seq<nat>) {
    |argv| == |starts| && forall k | 0 <= k < |starts| :: argv[k] == starts[k]
  }

  /** What has been done of a parse, and what is to be done, make the whole. */
  ghost predicate Ongoing(text: string, i: nat, mode: Mode, room: nat, done: string, starts: seq<nat>, all: Parse)
  {
    i <= |text| && var r := Scan(text[i..], i, mode, room);
    done + r.text == all.text && starts + r.starts == all.starts
  }

  lemma OngoingStep(text: string, i: nat, mode: Mode, room: nat, done: string, starts: seq<nat>, all: Parse)
    requires i < |text| && room > 0 && Ongoing(text, i, mode, room, done, starts, all)
    ensures var c := text[i]; var begun := Begun(mode, c, i);
      Ongoing(text, i + 1, NextMode(mode, c), room - |begun|,
              done + [if Ends(mode, c) then NUL else c], starts + begun, all)
  {
    hide Scan, NextMode, Begun, Ends;
    var c := text[i];
    var begun := Begun(mode, c, i);
    assert [c] + text[i + 1..] == text[i..];
    ScanStep(c, text[i + 1..], i, mode, room);
    var r := Scan(text[i + 1..], i + 1, NextMode(mode, c), room - |begun|);
    var x := [if Ends(mode, c) then NUL else c];
    assert done + (x + r.text) == done + x + r.text;
    assert starts + (begun + r.starts) == starts + begun + r.starts;
  }

  lemma OngoingBegins(text: string, room: nat)
    ensures Ongoing(text, 0, Between, room, [], [], Scan(text, 0, Between, room))
    ensures Points([], [])
  {
    assert text[0..] == text;
  }

  lemma OngoingEnds(text: string, i: nat, mode: Mode, room: nat, done: string, starts: seq<nat>, all: Parse)
    requires Ongoing(text, i, mode, room, done, starts, all) && (i == |text| || room == 0)
    ensures all == Parse(starts, done + text[i..])
  {
    assert starts + [] == starts;
  }

  lemma PrefixOfSuffix<T>(s: seq<T>, t: seq<T>, a: nat, b: nat)
    requires |s| == |t| && a <= b <= |s| && s[a..] == t[a..]
    ensures s[..b] == s[..a] + t[..b][a..] && s[b..] == t[b..]
  {
    SuffixesAgree(s, t, a, b);
    assert s[..b][a..] == s[a..][..b - a] == t[a..][..b - a] == t[..b][a..];
    assert s[..b] == s[..b][..a] + s[..b][a..] && s[..b][..a] == s[..a];
  }

  /** The body of the loop, for one character. */
  method ParseChar(line: array<char>, argv: array<int>, i: nat, count: nat, wasArg: bool, wasQuote: bool, quote: char,
                   ghost starts: seq<nat>)
    returns (argc: nat, inArg: bool, inQuote: bool, quoteChar: char)
    requires i < line.Length && count < argv.Length && (line as object) != argv && Points(argv[..count], starts)
    requires wasQuote ==> wasArg && IsQuote(quote)
    modifies line, argv
    ensures inQuote ==> inArg && IsQuote(quoteChar)
    ensures var mode, c := ModeOf(wasArg, wasQuote, quote), old(line[i]); var begun := Begun(mode, c, i);
      && ModeOf(inArg, inQuote, quoteChar) == NextMode(mode, c)
      && line[..i + 1] == old(line[..i]) + [if Ends(mode, c) then NUL else c]
      && line[i + 1..] == old(line[i + 1..])
      && argc == count + |begun| <= argv.Length
      && Points(argv[..argc], starts + begun) && argv[argc..] == old(argv[argc..])
  {
    argc, inArg, inQuote, quoteChar := count, wasArg, wasQuote, quote;
    var c := line[i];
    if (c == '"' || c == '\'') && !inQuote {
      inQuote := true;
      quoteChar := c;
      if !inArg {
        argv[argc] := i + 1;
        argc := argc + 1;
        inArg := true;
      }
    } else if c == quoteChar && inQuote {
      inQuote := false;
      quoteChar := '\0';
      line[i] := '\0';
    } else if (c == ' ' || c == '\t') && !inQuote {
      if inArg {
        line[i] := '\0';
        inArg := false;
      }
    } else {
      if !inArg {
        argv[argc] := i;
        argc := argc + 1;
        inArg := true;
      }
    }
  }

  /** The loop of `shell_parse_args`. */
  method ParseLine(line: array<char>, argv: array<int>, maxArgs: nat, ghost length: nat) returns (argc: nat)
    requires IsCString(line, length) && maxArgs <= argv.Length && (line as object) != argv
    modifies line, argv
    ensures var r := Scan(old(line[..length]), 0, Between, maxArgs);
      && argc == |r.starts| <= argv.Length && Points(argv[..argc], r.starts) && argv[argc..] == old(argv[argc..])
      && line[..length] == r.text && line[length..] == old(line[length..])
  {
    hide NextMode, Begun, Ends, Scan, Ongoing, Points;
    argc := 0;
    var i := 0;
    var inQuote, inArg, quoteChar := false, false, '\0';
    ghost var text, starts: seq<nat> := line[..length], [];
    ghost var all := Scan(text, 0, Between, maxArgs);
    ghost var line0, argv0 := line[..], argv[..];
    OngoingBegins(text, maxArgs);
    while line[i] != '\0' && argc < maxArgs
      invariant 0 <= i <= length && argc <= maxArgs && (inQuote ==> inArg && IsQuote(quoteChar))
      invariant Ongoing(text, i, ModeOf(inArg, inQuote, quoteChar), maxArgs - argc, line[..i], starts, all)
      invariant Points(argv[..argc], starts) && |starts| == argc
      invariant line[i..] == line0[i..] && argv[argc..] == argv0[argc..]
      decreases length - i
    {
      assert line[i] == text[i];
      ghost var mode, c, done := ModeOf(inArg, inQuote, quoteChar), text[i], line[..i];
      ghost var line1, argv1, count := line[..], argv[..], argc;
      OngoingStep(text, i, mode, maxArgs - argc, done, starts, all);
      argc, inArg, inQuote, quoteChar := ParseChar(line, argv, i, argc, inArg, inQuote, quoteChar, starts);
      SuffixesAgree(line1, line0, i, i + 1);
      SuffixesAgree(argv1, argv0, count, argc);
      starts := starts + Begun(mode, c, i);
      i := i + 1;
    }
    OngoingEnds(text, i, ModeOf(inArg, inQuote, quoteChar), maxArgs - argc, line[..i], starts, all);
    PrefixOfSuffix(line[..], line0, i, length);
  }

  /** `shell_parse_args`. The vector needs room for so many arguments, and for the null
      pointer behind those that are found; `shell_execute_command` has 64 entries and allows
      64 arguments, so that a line with as many writes behind the vector. */
  method ParseArgs(line: array<char>, argv: array<int>, maxArgs: nat, ghost length: nat) returns (argc: nat)
    requires IsCString(line, length) && maxArgs <= argv.Length && (line as object) != argv
    requires |Scan(line[..length], 0, Between, maxArgs).starts| < argv.Length
    modifies line, argv
    ensures var r := Scan(old(line[..length]), 0, Between, maxArgs);
      && argc == |r.starts| < argv.Length && Points(argv[..argc], r.starts)
      && argv[argc] == NULL_ARG && argv[argc + 1..] == old(argv[argc + 1..])
      && line[..length] == r.text && line[length..] == old(line[length..])
  {
    hide Scan, Points;
    argc := ParseLine(line, argv, maxArgs, length);
    argv[argc] := NULL_ARG;
  }
}
