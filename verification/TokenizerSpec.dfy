/** The splitting of a command line in shell.c, on values. */
module TokenizerSpec {
  import opened Prelude

  const NUL: char := '\0'

  /** Where the parser is: `in_arg`, `in_quote` and `quote_char`. */
  datatype Mode = Between | InArg | InQuote(quote: char)

  predicate IsQuote(c: char) { c == '"' || c == '\'' }

  predicate IsBlank(c: char) { c == ' ' || c == '\t' }

  /** What one character leads to. */
  function NextMode(mode: Mode, c: char): Mode {
    if !mode.InQuote? && IsQuote(c) then InQuote(c)
    else if mode == InQuote(c) then InArg
    else if !mode.InQuote? && IsBlank(c) then Between
    else if mode.Between? then InArg
    else mode
  }

  /** Whether a character becomes a NUL. */
  predicate Ends(mode: Mode, c: char) {
    mode == InQuote(c) || (mode.InArg? && IsBlank(c))
  }

  /** Where an argument begins, if one does with this character. */
  function Begun(mode: Mode, c: char, place: nat): (starts: seq<nat>)
    ensures |starts| <= 1
  {
    if !mode.Between? || IsBlank(c) then [] else if IsQuote(c) then [place + 1] else [place]
  }

  datatype Parse = Parse(starts: seq<nat>, text: string)

  /** `shell_parse_args` on the rest of a line that begins at a place, with room for so
      many arguments: where they begin, and the rest as it is then. */
  function Scan(rest: string, place: nat, mode: Mode, room: nat): (r: Parse)
    ensures |r.text| == |rest| && |r.starts| <= room && |r.starts| <= |rest|
    decreases |rest|
  {
    if rest == [] || room == 0 then Parse([], rest)
    else
      var c := rest[0];
      var begun := Begun(mode, c, place);
      var r := Scan(rest[1..], place + 1, NextMode(mode, c), room - |begun|);
      Parse(begun + r.starts, [if Ends(mode, c) then NUL else c] + r.text)
  }

  // What parsing does to a line

  /** Only blanks and quotes become NULs, and nothing else changes. */
  lemma {:induction false} OnlyDelimitersChange(rest: string, place: nat, mode: Mode, room: nat, k: nat)
    requires k < |rest| && (mode.InQuote? ==> IsQuote(mode.quote))
    ensures Scan(rest, place, mode, room).text[k] in {rest[k], NUL}
    ensures !IsBlank(rest[k]) && !IsQuote(rest[k]) ==> Scan(rest, place, mode, room).text[k] == rest[k]
    decreases |rest|
  {
    if room > 0 && k > 0 {
      var room' := room - |Begun(mode, rest[0], place)|;
      OnlyDelimitersChange(rest[1..], place + 1, NextMode(mode, rest[0]), room', k - 1);
    }
  }

  lemma ScanStarts(rest: string, place: nat, mode: Mode, room: nat)
    requires rest != [] && room > 0
    ensures var begun := Begun(mode, rest[0], place);
      Scan(rest, place, mode, room).starts
        == begun + Scan(rest[1..], place + 1, NextMode(mode, rest[0]), room - |begun|).starts
  {
    hide NextMode, Begun;
  }

  lemma BegunWhere(mode: Mode, c: char, place: nat)
    ensures Begun(mode, c, place) != [] ==>
      var start := Begun(mode, c, place)[0];
      mode.Between? && (start == place || (start == place + 1 && NextMode(mode, c).InQuote?))
  {
  }

  /** The arguments begin one behind the other, within the line or at its end. */
  lemma {:induction false} StartsIncrease(rest: string, place: nat, mode: Mode, room: nat)
    ensures var starts := Scan(rest, place, mode, room).starts;
      && Increasing(starts)
      && forall i | 0 <= i < |starts| :: (if mode.InQuote? then place + 1 else place) <= starts[i] <= place + |rest|
    decreases |rest|
  {
    hide NextMode, Begun, Scan;
    if rest == [] || room == 0 {
      NothingFound(rest, place, mode, room, 0);
      assert Scan(rest, place, mode, room).starts == [];
    } else {
      var next, begun := NextMode(mode, rest[0]), Begun(mode, rest[0], place);
      ScanStarts(rest, place, mode, room);
      BegunWhere(mode, rest[0], place);
      StartsIncrease(rest[1..], place + 1, next, room - |begun|);
      IncreasingPrepend(begun, Scan(rest[1..], place + 1, next, room - |begun|).starts);
    }
  }

  lemma IncreasingPrepend(begun: seq<nat>, starts: seq<nat>)
    requires |begun| <= 1 && Increasing(starts)
    requires begun != [] ==> forall i | 0 <= i < |starts| :: begun[0] < starts[i]
    ensures Increasing(begun + starts)
    ensures forall x | x in begun + starts :: x in begun || x in starts
  {
  }

  /** The first of all, as many as there is room for. */
  ghost predicate AreFirst(few: seq<nat>, all: seq<nat>, room: nat) {
    few <= all && (|few| == room || few == all)
  }

  lemma NothingFound(rest: string, place: nat, mode: Mode, room: nat, more: nat)
    requires rest == [] || room == 0
    ensures AreFirst(Scan(rest, place, mode, room).starts, Scan(rest, place, mode, room + more).starts, room)
  {
    hide NextMode, Begun;
  }

  /** With less room the first arguments are found, as many as there is room for. */
  lemma {:induction false} RoomCuts(rest: string, place: nat, mode: Mode, room: nat, more: nat)
    ensures AreFirst(Scan(rest, place, mode, room).starts, Scan(rest, place, mode, room + more).starts, room)
    decreases |rest|
  {
    hide NextMode, Begun, Scan, AreFirst;
    if rest == [] || room == 0 {
      NothingFound(rest, place, mode, room, more);
    } else {
      var next, begun := NextMode(mode, rest[0]), Begun(mode, rest[0], place);
      var left := room - |begun|;
      ScanStarts(rest, place, mode, room);
      ScanStarts(rest, place, mode, room + more);
      RoomCuts(rest[1..], place + 1, next, left, more);
      FirstPrepend(begun, Scan(rest[1..], place + 1, next, left).starts,
                   Scan(rest[1..], place + 1, next, left + more).starts, left);
    }
  }

  lemma FirstPrepend(begun: seq<nat>, few: seq<nat>, all: seq<nat>, room: nat)
    requires AreFirst(few, all, room)
    ensures AreFirst(begun + few, begun + all, |begun| + room)
  {
  }

  /** There is an entry left for the null pointer exactly if the line has fewer arguments
      than there is room for. */
  lemma NullFitsIff(line: string, room: nat)
    ensures |Scan(line, 0, Between, room).starts| < room <==> |Scan(line, 0, Between, |line|).starts| < room
  {
    if room <= |line| {
      RoomCuts(line, 0, Between, room, |line| - room);
    }
  }

  // Printing arguments

  /** How an argument is printed. */
  datatype Style = Bare | Quoted(quote: char)

  predicate Printable(arg: string, style: Style) {
    match style
    case Bare => arg != [] && forall c | c in arg :: c !in {NUL, ' ', '\t', '"', '\''}
    case Quoted(q) => q in {'"', '\''} && q !in arg && NUL !in arg
  }

  ghost predicate AllPrintable(args: seq<string>, styles: seq<Style>) {
    |styles| == |args| && forall k | 0 <= k < |args| :: Printable(args[k], styles[k])
  }

  function Printed(arg: string, style: Style): string {
    if style.Bare? then arg else [style.quote] + arg + [style.quote]
  }

  predicate AllBlank(gap: string) {
    forall c | c in gap :: c in {' ', '\t'}
  }

  /** Blanks before, between and behind so many arguments, at least one between two. */
  ghost predicate AreGaps(gaps: seq<string>, n: nat) {
    && |gaps| == n + 1
    && (forall gap | gap in gaps :: AllBlank(gap))
    && (forall k | 0 < k < n :: gaps[k] != [])
  }

  /** The arguments with these gaps around them. */
  function Line(args: seq<string>, styles: seq<Style>, gaps: seq<string>): string
    requires |styles| == |args| && |gaps| == |args| + 1
  {
    gaps[0] + if args == [] then [] else Printed(args[0], styles[0]) + Line(args[1..], styles[1..], gaps[1..])
  }

  /** The string that begins at a place of a text: up to the first NUL or the end. */
  function CString(text: string, k: nat): string
    requires k <= |text|
    decreases |text| - k
  {
    if k == |text| || text[k] == NUL then [] else [text[k]] + CString(text, k + 1)
  }

  /** The parsed arguments, as strings. */
  ghost predicate Yields(r: Parse, place: nat, args: seq<string>) {
    && |r.starts| == |args|
    && forall k | 0 <= k < |args| ::
         place <= r.starts[k] <= place + |r.text| && CString(r.text, r.starts[k] - place) == args[k]
  }

  /** What parsing makes of printed arguments when there is room for so many: once it has
      begun the last that it has room for, it takes the rest of the line as it is. */
  function Seen(args: seq<string>, styles: seq<Style>, gaps: seq<string>, room: nat): seq<string>
    requires |styles| == |args| && |gaps| == |args| + 1
  {
    if room == 0 then []
    else if |args| < room then args
    else
      var rest := Line(args[room - 1..], styles[room - 1..], [[]] + gaps[room..]);
      args[..room - 1] + [if styles[room - 1].Bare? || rest == [] then rest else rest[1..]]
  }

  lemma ScanStep(c: char, rest: string, place: nat, mode: Mode, room: nat)
    requires room > 0
    ensures var begun := Begun(mode, c, place);
      var r := Scan(rest, place + 1, NextMode(mode, c), room - |begun|);
      Scan([c] + rest, place, mode, room) == Parse(begun + r.starts, [if Ends(mode, c) then NUL else c] + r.text)
  {
    assert ([c] + rest)[1..] == rest;
  }

  lemma ScanStay(c: char, rest: string, place: nat, mode: Mode, room: nat)
    requires room > 0 && !mode.Between?
    requires if mode.InArg? then !IsBlank(c) && !IsQuote(c) else c != mode.quote
    ensures var r := Scan(rest, place + 1, mode, room);
      Scan([c] + rest, place, mode, room) == Parse(r.starts, [c] + r.text)
  {
    hide Scan;
    ScanStep(c, rest, place, mode, room);
    var r := Scan(rest, place + 1, mode, room);
    assert [] + r.starts == r.starts;
  }

  lemma {:induction false} ScanThrough(u: string, rest: string, place: nat, mode: Mode, room: nat)
    requires room > 0 && !mode.Between?
    requires mode.InArg? ==> forall c | c in u :: !IsBlank(c) && !IsQuote(c)
    requires mode.InQuote? ==> mode.quote !in u
    ensures var r := Scan(rest, place + |u|, mode, room);
      Scan(u + rest, place, mode, room) == Parse(r.starts, u + r.text)
    decreases |u|
  {
    hide Scan;
    if u == [] {
      assert u + rest == rest;
      var r := Scan(rest, place, mode, room);
      assert u + r.text == r.text;
    } else {
      assert u[0] in u && forall c | c in u[1..] :: c in u;
      ScanStay(u[0], u[1..] + rest, place, mode, room);
      assert [u[0]] + (u[1..] + rest) == u + rest;
      ScanThrough(u[1..], rest, place + 1, mode, room);
      var r := Scan(rest, place + |u|, mode, room);
      assert [u[0]] + (u[1..] + r.text) == u + r.text;
    }
  }

  lemma {:induction false} CStringPrefix(u: string, rest: string)
    requires NUL !in u && (rest == [] || rest[0] == NUL)
    ensures CString(u + rest, 0) == u
  {
    CStringFrom(u, rest, 0);
  }

  lemma {:induction false} CStringFrom(u: string, rest: string, k: nat)
    requires NUL !in u && (rest == [] || rest[0] == NUL) && k <= |u|
    ensures CString(u + rest, k) == u[k..]
    decreases |u| - k
  {
    if k < |u| {
      CStringFrom(u, rest, k + 1);
    }
  }

  /** A string does not depend on what is before it. */
  lemma {:induction false} CStringBehind(before: string, text: string, k: nat)
    requires k <= |text|
    ensures CString(before + text, |before| + k) == CString(text, k)
    decreases |text| - k
  {
    if k < |text| && text[k] != NUL {
      CStringBehind(before, text, k + 1);
    }
  }

  /** One more argument in front, of which the text ends with a NUL or with the line. */
  lemma YieldsCons(head: string, d: nat, a: string, r: Parse, place: nat, args: seq<string>)
    requires d <= |head| && CString(head + r.text, d) == a
    requires Yields(r, place + |head|, args)
    ensures Yields(Parse([place + d] + r.starts, head + r.text), place, [a] + args)
  {
    var q := Parse([place + d] + r.starts, head + r.text);
    forall k | 0 <= k < |args| + 1
      ensures place <= q.starts[k] <= place + |q.text| && CString(q.text, q.starts[k] - place) == ([a] + args)[k]
    {
      if k > 0 {
        var x := r.starts[k - 1] - (place + |head|);
        CStringBehind(head, r.text, x);
      }
    }
  }

  /** Where a printed argument begins. */
  function Skip(style: Style): nat {
    if style.Bare? then 0 else 1
  }

  /** A printed argument once it has been parsed. */
  function Parsed(arg: string, style: Style): (text: string)
    ensures |text| == |Printed(arg, style)|
  {
    if style.Bare? then arg else [style.quote] + arg + [NUL]
  }

  lemma ScanBare(arg: string, rest: string, place: nat, room: nat)
    requires Printable(arg, Bare) && room > 1
    ensures var r := Scan(rest, place + |arg|, InArg, room - 1);
      Scan(arg + rest, place, Between, room) == Parse([place] + r.starts, arg + r.text)
  {
    hide Scan;
    var c, u := arg[0], arg[1..];
    assert c in arg && forall x | x in u :: x in arg;
    ScanStep(c, u + rest, place, Between, room);
    ScanThrough(u, rest, place + 1, InArg, room - 1);
    assert [c] + (u + rest) == arg + rest;
    var r := Scan(rest, place + |arg|, InArg, room - 1);
    assert [c] + (u + r.text) == arg + r.text;
  }

  lemma ScanQuoted(arg: string, q: char, rest: string, place: nat, room: nat)
    requires Printable(arg, Quoted(q)) && room > 1
    ensures var r := Scan(rest, place + |arg| + 2, InArg, room - 1);
      Scan([q] + arg + [q] + rest, place, Between, room) == Parse([place + 1] + r.starts, [q] + arg + [NUL] + r.text)
  {
    hide Scan;
    ScanStep(q, arg + ([q] + rest), place, Between, room);
    ScanThrough(arg, [q] + rest, place + 1, InQuote(q), room - 1);
    ScanStep(q, rest, place + 1 + |arg|, InQuote(q), room - 1);
    assert [q] + (arg + ([q] + rest)) == [q] + arg + [q] + rest;
    var r := Scan(rest, place + |arg| + 2, InArg, room - 1);
    assert [] + r.starts == r.starts;
    assert [q] + (arg + ([NUL] + r.text)) == [q] + arg + [NUL] + r.text;
  }

  /** A quote in a bare word does not end it, and stays in it; what follows belongs to the
      word, blanks too, up to the same quote, which becomes a NUL. */
  lemma QuoteInWord(u: string, q: char, v: string, rest: string, place: nat, room: nat)
    requires Printable(u, Bare) && Printable(v, Quoted(q)) && room > 1
    ensures var line := u + [q] + v + [q] + rest; var head := u + [q] + v;
      var r := Scan(rest, place + |head| + 1, InArg, room - 1);
      && Scan(line, place, Between, room) == Parse([place] + r.starts, head + [NUL] + r.text)
      && Yields(Parse([place], head + [NUL] + r.text), place, [head])
  {
    hide Scan;
    var end := |u| + |v| + 1;
    ScanBare(u, [q] + (v + ([q] + rest)), place, room);
    ScanStep(q, v + ([q] + rest), place + |u|, InArg, room - 1);
    ScanThrough(v, [q] + rest, place + |u| + 1, InQuote(q), room - 1);
    ScanStep(q, rest, place + end, InQuote(q), room - 1);
    assert u + ([q] + (v + ([q] + rest))) == u + [q] + v + [q] + rest;
    var r := Scan(rest, place + end + 1, InArg, room - 1);
    assert [] + r.starts == r.starts;
    assert u + ([q] + (v + ([NUL] + r.text))) == u + [q] + v + [NUL] + r.text;
    CStringPrefix(u + [q] + v, [NUL] + r.text);
    assert u + [q] + v + ([NUL] + r.text) == u + [q] + v + [NUL] + r.text;
  }

  /** The first argument of a line ends in the parser between its end and what follows. */
  lemma ScanPrinted(arg: string, style: Style, rest: string, place: nat, room: nat)
    requires Printable(arg, style) && room > 1
    ensures var r := Scan(rest, place + |Printed(arg, style)|, InArg, room - 1);
      Scan(Printed(arg, style) + rest, place, Between, room)
        == Parse([place + Skip(style)] + r.starts, Parsed(arg, style) + r.text)
  {
    hide Scan;
    match style
    case Bare => ScanBare(arg, rest, place, room);
    case Quoted(q) => ScanQuoted(arg, q, rest, place, room);
  }

  lemma ParsedBegins(arg: string, style: Style, more: string)
    requires Printable(arg, style) && (style.Bare? ==> more == [] || more[0] == NUL)
    ensures CString(Parsed(arg, style) + more, Skip(style)) == arg
  {
    match style
    case Bare =>
      CStringPrefix(arg, more);
    case Quoted(q) =>
      assert Parsed(arg, style) + more == [q] + (arg + ([NUL] + more));
      CStringPrefix(arg, [NUL] + more);
      CStringBehind([q], arg + ([NUL] + more), 0);
  }

  lemma {:induction false} NoNulInLine(args: seq<string>, styles: seq<Style>, gaps: seq<string>)
    requires AllPrintable(args, styles) && AreGaps(gaps, |args|)
    ensures NUL !in Line(args, styles, gaps)
    decreases |args|
  {
    assert gaps[0] in gaps && AllBlank(gaps[0]);
    if args != [] {
      assert Printable(args[0], styles[0]);
      assert NUL !in Printed(args[0], styles[0]);
      GapsBehind(gaps, |args|);
      NoNulInLine(args[1..], styles[1..], gaps[1..]);
    }
  }

  lemma GapsBehind(gaps: seq<string>, n: nat)
    requires AreGaps(gaps, n) && n > 0
    ensures AreGaps(gaps[1..], n - 1)
    ensures AreGaps([[]] + gaps[1..], n)
  {
    assert forall k | 0 < k < n - 1 :: gaps[1..][k] == gaps[k + 1];
    assert forall k | 0 < k < n :: ([[]] + gaps[1..])[k] == gaps[k];
  }

  /** A gap before the next argument is passed over. */
  lemma {:induction false} ScanGap(gap: string, rest: string, place: nat, room: nat)
    requires AllBlank(gap) && room > 0
    ensures var r := Scan(rest, place + |gap|, Between, room);
      Scan(gap + rest, place, Between, room) == Parse(r.starts, gap + r.text)
    decreases |gap|
  {
    hide Scan;
    if gap == [] {
      assert gap + rest == rest;
      var r := Scan(rest, place, Between, room);
      assert gap + r.text == r.text;
    } else {
      assert gap[0] in gap && forall c | c in gap[1..] :: c in gap;
      ScanStep(gap[0], gap[1..] + rest, place, Between, room);
      assert [gap[0]] + (gap[1..] + rest) == gap + rest;
      ScanGap(gap[1..], rest, place + 1, room);
      var r := Scan(rest, place + |gap|, Between, room);
      assert [gap[0]] + (gap[1..] + r.text) == gap + r.text;
      assert [] + r.starts == r.starts;
    }
  }

  /** The first gap of a line is passed over. */
  lemma GapYields(gap: string, rest: string, place: nat, room: nat, args: seq<string>)
    requires AllBlank(gap) && room > 0 && Yields(Scan(rest, place + |gap|, Between, room), place + |gap|, args)
    ensures Yields(Scan(gap + rest, place, Between, room), place, args)
  {
    hide Scan, CString;
    ScanGap(gap, rest, place, room);
    var r := Scan(rest, place + |gap|, Between, room);
    forall k | 0 <= k < |args|
      ensures CString(gap + r.text, r.starts[k] - place) == args[k]
    {
      CStringBehind(gap, r.text, r.starts[k] - (place + |gap|));
    }
  }

  /** With room for one argument only, it is the line itself, behind an opening quote. */
  lemma LastRoom(args: seq<string>, styles: seq<Style>, gaps: seq<string>, place: nat)
    requires AllPrintable(args, styles) && AreGaps(gaps, |args|) && args != [] && gaps[0] == []
    ensures Yields(Scan(Line(args, styles, gaps), place, Between, 1), place, Seen(args, styles, gaps, 1))
  {
    hide Line, Printed, Printable, Scan;
    var line, d := Line(args, styles, gaps), Skip(styles[0]);
    assert args[0..] == args && styles[0..] == styles && [[]] + gaps[1..] == gaps;
    LineBegins(args, styles, gaps);
    NoNulInLine(args, styles, gaps);
    hide AreGaps, AllPrintable;
    ScanBegins(line, place, d);
    CStringFrom(line, [], d);
    assert line + [] == line;
    assert args[..0] + [line[d..]] == [line[d..]];
  }

  lemma LineBegins(args: seq<string>, styles: seq<Style>, gaps: seq<string>)
    requires AllPrintable(args, styles) && |gaps| == |args| + 1 && args != [] && gaps[0] == []
    ensures var line := Line(args, styles, gaps);
      line != [] && !IsBlank(line[0]) && (IsQuote(line[0]) <==> styles[0].Quoted?)
  {
    assert Printable(args[0], styles[0]);
    assert styles[0].Bare? ==> args[0][0] in args[0];
  }

  lemma ScanBegins(line: string, place: nat, d: nat)
    requires line != [] && !IsBlank(line[0]) && d == if IsQuote(line[0]) then 1 else 0
    ensures Scan(line, place, Between, 1) == Parse([place + d], line)
  {
    assert [line[0]] + line[1..] == line;
    ScanStep(line[0], line[1..], place, Between, 1);
  }

  /** What is seen does not depend on the gap before the first argument. */
  lemma SeenTail(args: seq<string>, styles: seq<Style>, gaps: seq<string>, gap: string, room: nat)
    requires |styles| == |args| > 0 && |gaps| == |args| + 1 && room > 1
    ensures Seen(args, styles, gaps, room) == [args[0]] + Seen(args[1..], styles[1..], [gap] + gaps[2..], room - 1)
  {
    if |args| >= room {
      assert args[1..][room - 2..] == args[room - 1..] && styles[1..][room - 2..] == styles[room - 1..];
      assert ([gap] + gaps[2..])[room - 1..] == gaps[room..];
    }
  }

  lemma SeenAfterGap(args: seq<string>, styles: seq<Style>, gaps: seq<string>, room: nat)
    requires |styles| == |args| && |gaps| == |args| + 1
    ensures Seen(args, styles, gaps, room) == Seen(args, styles, [[]] + gaps[1..], room)
  {
    assert 0 < room <= |args| ==> ([[]] + gaps[1..])[room..] == gaps[room..];
  }

  /** Parsing printed arguments, for every room. */
  lemma {:induction false} ParsePrinted(args: seq<string>, styles: seq<Style>, gaps: seq<string>, place: nat, room: nat)
    requires AllPrintable(args, styles) && AreGaps(gaps, |args|)
    ensures Yields(Scan(Line(args, styles, gaps), place, Between, room), place, Seen(args, styles, gaps, room))
    decreases |args|, 1
  {
    hide Line, Seen, Scan, Yields, AllPrintable, AreGaps;
    SeenWithout(args, styles, gaps, place, room);
    if room > 0 {
      GapsAre(gaps, |args|);
      var rest := Line(args, styles, [[]] + gaps[1..]);
      LineIs(args, styles, gaps[0], gaps[1..]);
      if args != [] {
        GapsBehind(gaps, |args|);
        ParseFromArgument(args, styles, [[]] + gaps[1..], place + |gaps[0]|, room);
        SeenAfterGap(args, styles, gaps, room);
      }
      GapYields(gaps[0], rest, place, room, Seen(args, styles, gaps, room));
    }
  }

  lemma GapsAre(gaps: seq<string>, n: nat)
    requires AreGaps(gaps, n)
    ensures |gaps| == n + 1 && AllBlank(gaps[0]) && gaps == [gaps[0]] + gaps[1..]
  {
    assert gaps[0] in gaps;
  }

  /** Without room, or without arguments, nothing is seen. */
  lemma SeenWithout(args: seq<string>, styles: seq<Style>, gaps: seq<string>, place: nat, room: nat)
    requires AllPrintable(args, styles) && AreGaps(gaps, |args|)
    ensures |styles| == |args| && |gaps| == |args| + 1
    ensures room == 0 ==>
      Yields(Scan(Line(args, styles, gaps), place, Between, room), place, Seen(args, styles, gaps, room))
    ensures args == [] ==>
      Yields(Scan([], place + |gaps[0]|, Between, room), place + |gaps[0]|, Seen(args, styles, gaps, room))
  {
    hide Line;
  }

  lemma LineUnfolds(args: seq<string>, styles: seq<Style>, gap: string, more: seq<string>)
    requires |styles| == |args| == |more|
    ensures Line(args, styles, [gap] + more) == gap + Behind(args, styles, more)
  {
    assert ([gap] + more)[1..] == more;
    hide Printed;
  }

  /** A line without its first gap. */
  function Behind(args: seq<string>, styles: seq<Style>, more: seq<string>): string
    requires |styles| == |args| == |more|
  {
    if args == [] then [] else Printed(args[0], styles[0]) + Line(args[1..], styles[1..], more)
  }

  lemma LineIs(args: seq<string>, styles: seq<Style>, gap: string, more: seq<string>)
    requires |styles| == |args| == |more|
    ensures Line(args, styles, [gap] + more) == gap + Line(args, styles, [[]] + more)
    ensures args != [] ==>
      Line(args, styles, [[]] + more) == Printed(args[0], styles[0]) + Line(args[1..], styles[1..], more)
    ensures args == [] ==> Line(args, styles, [[]] + more) == []
  {
    hide Line, Printed;
    LineUnfolds(args, styles, gap, more);
    LineUnfolds(args, styles, [], more);
    NothingBefore(Behind(args, styles, more));
  }

  lemma NothingBefore(s: string)
    ensures [] + s == s
  {
  }

  /** A gap begins with its first blank. */
  lemma LineOfGap(args: seq<string>, styles: seq<Style>, blank: char, gap: string, more: seq<string>)
    requires |styles| == |args| == |more|
    ensures Line(args, styles, [[blank] + gap] + more) == [blank] + Line(args, styles, [gap] + more)
  {
    LineIs(args, styles, [blank] + gap, more);
    LineIs(args, styles, gap, more);
    hide Line;
    Regroup([blank], gap, Line(args, styles, [[]] + more));
  }

  lemma Regroup(a: string, b: string, c: string)
    ensures (a + b) + c == a + (b + c)
  {
  }

  /** The same for a line that begins with an argument. */
  lemma {:induction false} ParseFromArgument(args: seq<string>, styles: seq<Style>, gaps: seq<string>, place: nat,
                                             room: nat)
    requires AllPrintable(args, styles) && AreGaps(gaps, |args|) && args != [] && gaps[0] == [] && room > 0
    ensures Yields(Scan(Line(args, styles, gaps), place, Between, room), place, Seen(args, styles, gaps, room))
    decreases |args|, 0
  {
    hide Line, Seen, Scan, Yields, Printed, Printable, CString;
    assert Printable(args[0], styles[0]) && AllPrintable(args[1..], styles[1..]);
    var head := Printed(args[0], styles[0]);
    assert gaps == [[]] + gaps[1..];
    LineIs(args, styles, [], gaps[1..]);
    if room == 1 {
      LastRoom(args, styles, gaps, place);
    } else if gaps[1] == [] {
      OnlyLastGapEmpty(args, styles, gaps, room);
      ParseOne(args[0], styles[0], place, room);
    } else {
      var blank, gap := gaps[1][0], gaps[1][1..];
      var seen := Seen(args[1..], styles[1..], [gap] + gaps[2..], room - 1);
      ShorterGaps(gaps, |args|);
      LineOfGap(args[1..], styles[1..], blank, gap, gaps[2..]);
      hide AreGaps, AllPrintable;
      ParsePrinted(args[1..], styles[1..], [gap] + gaps[2..], place + |head| + 1, room - 1);
      ParseNext(args[0], styles[0], blank, Line(args[1..], styles[1..], [gap] + gaps[2..]), seen, place, room);
      SeenTail(args, styles, gaps, gap, room);
    }
  }

  lemma OnlyLastGapEmpty(args: seq<string>, styles: seq<Style>, gaps: seq<string>, room: nat)
    requires AllPrintable(args, styles) && AreGaps(gaps, |args|) && args != [] && gaps[0] == gaps[1] == [] && room > 1
    ensures Seen(args, styles, gaps, room) == args == [args[0]]
    ensures Line(args, styles, gaps) == Printed(args[0], styles[0])
  {
    assert |args| == 1;
    hide Printed, Printable;
    assert gaps[1..] == [[]];
    assert Line([], [], [[]]) == [];
    var head: string := Printed(args[0], styles[0]);
    assert [] + (head + []) == head;
  }

  /** A gap without its first blank. */
  lemma ShorterGaps(gaps: seq<string>, n: nat)
    requires AreGaps(gaps, n) && n > 0 && gaps[1] != []
    ensures IsBlank(gaps[1][0]) && AreGaps([gaps[1][1..]] + gaps[2..], n - 1)
    ensures gaps[1..] == [[gaps[1][0]] + gaps[1][1..]] + gaps[2..]
  {
    var gap := gaps[1][1..];
    assert gaps[1] in gaps && AllBlank(gaps[1]) && gaps[1][0] in gaps[1];
    assert forall c | c in gap :: c in gaps[1];
    var shorter := [gap] + gaps[2..];
    assert forall k | 0 < k < |shorter| :: shorter[k] == gaps[k + 1];
    assert [gaps[1][0]] + gap == gaps[1];
  }

  lemma ParseOne(arg: string, style: Style, place: nat, room: nat)
    requires Printable(arg, style) && room > 1
    ensures Yields(Scan(Printed(arg, style), place, Between, room), place, [arg])
  {
    var head := Printed(arg, style);
    ScanPrinted(arg, style, [], place, room);
    ParsedBegins(arg, style, []);
    assert head + [] == head && Parsed(arg, style) + [] == Parsed(arg, style);
    YieldsCons(Parsed(arg, style), Skip(style), arg, Parse([], []), place, []);
    assert [arg] + [] == [arg];
  }

  lemma ParseNext(arg: string, style: Style, blank: char, rest: string, seen: seq<string>, place: nat, room: nat)
    requires Printable(arg, style) && IsBlank(blank) && room > 1
    requires var next := place + |Printed(arg, style)| + 1; Yields(Scan(rest, next, Between, room - 1), next, seen)
    ensures Yields(Scan(Printed(arg, style) + ([blank] + rest), place, Between, room), place, [arg] + seen)
  {
    hide Scan, Yields, Parsed, Printed, CString, Printable;
    var head, written := Printed(arg, style), Parsed(arg, style);
    var r := Scan(rest, place + |head| + 1, Between, room - 1);
    ScanPrinted(arg, style, [blank] + rest, place, room);
    ScanStep(blank, rest, place + |head|, InArg, room - 1);
    assert [] + r.starts == r.starts;
    assert written + ([NUL] + r.text) == written + [NUL] + r.text;
    ParsedBegins(arg, style, [NUL] + r.text);
    YieldsCons(written + [NUL], Skip(style), arg, r, place, seen);
  }

  lemma YieldsOne(r: Parse, place: nat, args: seq<string>, others: seq<string>)
    requires Yields(r, place, args) && Yields(r, place, others)
    ensures args == others
  {
  }

  /** Whether a list fits into so much room, with this gap behind it. */
  predicate FitsRoom(styles: seq<Style>, last: string, room: nat) {
    |styles| < room || (|styles| == room && (room == 0 || (styles[room - 1].Bare? && last == [])))
  }

  lemma SeenIff(args: seq<string>, styles: seq<Style>, gaps: seq<string>, room: nat)
    requires |styles| == |args| && |gaps| == |args| + 1
    ensures Seen(args, styles, gaps, room) == args <==> FitsRoom(styles, gaps[|args|], room)
  {
    if |args| == room > 0 {
      var arg, style, last := args[room - 1], styles[room - 1], gaps[room];
      assert args[room - 1..] == [arg] && styles[room - 1..] == [style] && gaps[room..] == [last];
      assert args == args[..room - 1] + [arg];
      LineOfOne(arg, style, last);
      if style.Quoted? {
        assert |Seen(args, styles, gaps, room)[room - 1]| == |arg| + 1 + |last|;
      } else {
        assert Seen(args, styles, gaps, room)[room - 1] == arg + last;
        assert arg + last == arg <==> last == [];
      }
    }
  }

  lemma LineOfOne(arg: string, style: Style, last: string)
    ensures Line([arg], [style], [[]] + [last]) == Printed(arg, style) + last
  {
    assert ([[]] + [last])[1..] == [last];
    assert Line([], [], [last]) == last;
  }

  /** Parsing a printed list gives the list back exactly if there is room for more, or
      for just as many and the last is printed bare, at the end of the line. */
  lemma RoundTripIff(args: seq<string>, styles: seq<Style>, gaps: seq<string>, room: nat)
    requires AllPrintable(args, styles) && AreGaps(gaps, |args|)
    ensures Yields(Scan(Line(args, styles, gaps), 0, Between, room), 0, args) <==> FitsRoom(styles, gaps[|args|], room)
  {
    ParsePrinted(args, styles, gaps, 0, room);
    SeenIff(args, styles, gaps, room);
    var r := Scan(Line(args, styles, gaps), 0, Between, room);
    hide Scan, Seen, Line;
    if Yields(r, 0, args) {
      YieldsOne(r, 0, args, Seen(args, styles, gaps, room));
    }
  }
}
