/**
 What the option parser of `utils/optparse.h` computes, over values: one call
 (`Next`), all calls until the end (`Iterate`), and the one-pass parser they
 amount to (`Scan`). `OptionParser` ties the code to `Next` and `Iterate`.
 */
module OptionSpec {
  import opened Wrappers

  datatype ArgType = NoArg | Required | Optional

  /** An entry of the longopts table; a `shortname` of NUL means there is none. */
  datatype LongOpt = LongOpt(longname: Option<string>, shortname: char, argtype: ArgType)

  /** `optparse` with an option string, or `optparse_long` with a table. */
  datatype Mode = Short(optstring: string) | Long(table: seq<LongOpt>)

  datatype Problem = Invalid | Missing | TooMany

  /** What a call reports to its caller. */
  datatype Seen =
    | Done                                                  // -1
    | Opt(code: char, optarg: Option<string>)               // the option; optopt is the same character
    | Error(problem: Problem, optopt: char)                 // '?'

  predicate IsDashdash(arg: string) {
    arg == "--"
  }

  predicate IsShortopt(arg: string) {
    |arg| >= 2 && arg[0] == '-' && arg[1] != '-'
  }

  predicate IsLongopt(arg: string) {
    |arg| >= 3 && arg[0] == '-' && arg[1] == '-'
  }

  predicate IsNonoption(mode: Mode, arg: string) {
    !IsDashdash(arg) && !IsShortopt(arg) && !(mode.Long? && IsLongopt(arg))
  }

  // ---------------------------------------------------------------- option strings

  /** `optparse_argtype` on an option string. */
  function ArgTypeOf(optstring: string, c: char): Option<ArgType> {
    if c == ':' || optstring == [] then None
    else if optstring[0] == c then Some(Suffix(optstring[1..]))
    else ArgTypeOf(optstring[1..], c)
  }

  /** The colons after an option letter. */
  function Suffix(after: string): ArgType {
    if |after| >= 1 && after[0] == ':' then
      if |after| >= 2 && after[1] == ':' then Optional else Required
    else NoArg
  }

  function Colons(t: ArgType): string {
    match t
    case NoArg => ""
    case Required => ":"
    case Optional => "::"
  }

  /** `optparse_from_long`: the option string of a table. */
  function FromLong(table: seq<LongOpt>): string {
    if table == [] then ""
    else
      (if table[0].shortname != '\0' then [table[0].shortname] + Colons(table[0].argtype) else "")
      + FromLong(table[1..])
  }

  /** A table whose entries are options, none of them the colon. */
  predicate WellFormed(table: seq<LongOpt>) {
    forall e :: e in table ==> e.shortname != ':' && (e.shortname != '\0' || e.longname.Some?)
  }

  /** The argument type of the first entry with a short name. */
  function TableType(table: seq<LongOpt>, c: char): Option<ArgType> {
    if c == '\0' || table == [] then None
    else if table[0].shortname == c then Some(table[0].argtype)
    else TableType(table[1..], c)
  }

  /** The option string says of every letter what the table says of it. */
  lemma {:induction false} FromLongDecodes(table: seq<LongOpt>, c: char)
    requires WellFormed(table)
    ensures c != '\0' ==> ArgTypeOf(FromLong(table), c) == TableType(table, c)
  {
    if table != [] && c != '\0' {
      var e, rest := table[0], FromLong(table[1..]);
      FromLongDecodes(table[1..], c);
      if c == ':' {
        NoColonEntry(table);
      } else if e.shortname != '\0' {
        StartsWithLetter(table[1..]);
        DecodeEntry(e, rest, c);
      } else {
        assert FromLong(table) == rest;
      }
    }
  }

  lemma DecodeEntry(e: LongOpt, rest: string, c: char)
    requires e.shortname != ':' && c != ':' && (rest != [] ==> rest[0] != ':')
    ensures ArgTypeOf([e.shortname] + Colons(e.argtype) + rest, c) ==
              if c == e.shortname then Some(e.argtype) else ArgTypeOf(rest, c)
  {
    var s := [e.shortname] + Colons(e.argtype) + rest;
    assert s[1..] == Colons(e.argtype) + rest;
    if c != e.shortname {
      SkipColons(Colons(e.argtype), rest, c);
    }
  }

  lemma {:induction false} NoColonEntry(table: seq<LongOpt>)
    requires WellFormed(table)
    ensures TableType(table, ':') == None
  {
    if table != [] {
      assert table[0] in table;
      NoColonEntry(table[1..]);
    }
  }

  lemma {:induction false} StartsWithLetter(table: seq<LongOpt>)
    requires WellFormed(table)
    ensures FromLong(table) != [] ==> FromLong(table)[0] != ':'
  {
    if table != [] {
      assert table[0] in table;
      StartsWithLetter(table[1..]);
    }
  }

  lemma {:induction false} SkipColons(colons: string, rest: string, c: char)
    requires c != ':' && forall i :: 0 <= i < |colons| ==> colons[i] == ':'
    ensures ArgTypeOf(colons + rest, c) == ArgTypeOf(rest, c)
  {
    if colons == [] {
      assert colons + rest == rest;
    } else {
      SkipColons(colons[1..], rest, c);
      assert (colons + rest)[1..] == colons[1..] + rest;
    }
  }

  function ShortNames(table: seq<LongOpt>): nat {
    if table == [] then 0 else (if table[0].shortname != '\0' then 1 else 0) + ShortNames(table[1..])
  }

  /** The 289 bytes of `optstring` hold the string of any table with up to 96 short names, and its NUL. */
  lemma {:induction false} FromLongLength(table: seq<LongOpt>)
    ensures |FromLong(table)| <= 3 * ShortNames(table)
    ensures ShortNames(table) <= 96 ==> |FromLong(table)| + 1 <= 289
  {
    if table != [] {
      FromLongLength(table[1..]);
    }
  }

  /** C strings: no NUL inside. */
  predicate IsText(arg: string) {
    forall i :: 0 <= i < |arg| ==> arg[i] != '\0'
  }

  predicate AreTexts(args: seq<string>) {
    forall i :: 0 <= i < |args| ==> IsText(args[i])
  }

  lemma {:induction false} FromLongIsText(table: seq<LongOpt>)
    ensures IsText(FromLong(table))
  {
    if table != [] {
      FromLongIsText(table[1..]);
    }
  }

  /** No option is the NUL that ends an argument. */
  lemma {:induction false} NulHasNoType(optstring: string)
    requires IsText(optstring)
    ensures ArgTypeOf(optstring, '\0') == None
  {
    if optstring != [] {
      assert IsText(optstring[1..]);
      NulHasNoType(optstring[1..]);
    }
  }

  // ---------------------------------------------------------------- long options

  /** The name part of a long option, before any '='. */
  function NamePart(option: string): string {
    if option == [] || option[0] == '=' then "" else [option[0]] + NamePart(option[1..])
  }

  /** `optparse_longopts_arg`: what follows the first '='. */
  function ValuePart(option: string): Option<string> {
    if option == [] then None
    else if option[0] == '=' then Some(option[1..])
    else ValuePart(option[1..])
  }

  /** The first entry with a long name. */
  function FindLong(table: seq<LongOpt>, name: string): Option<LongOpt> {
    if table == [] then None
    else if table[0].longname == Some(name) then Some(table[0])
    else FindLong(table[1..], name)
  }

  /** Name and value are the two sides of the first '='. */
  lemma {:induction false} NameAndValue(option: string)
    ensures '=' !in NamePart(option)
    ensures option == NamePart(option) + (match ValuePart(option) case None => "" case Some(v) => "=" + v)
  {
    if option != [] && option[0] != '=' {
      NameAndValue(option[1..]);
      assert option == [option[0]] + option[1..];
    }
  }

  /** They are found again in an option put together of them. */
  lemma {:induction false} NamedValue(name: string, value: Option<string>)
    requires '=' !in name
    ensures var option := name + (match value case None => "" case Some(v) => "=" + v);
      NamePart(option) == name && ValuePart(option) == value
  {
    var tail := match value case None => "" case Some(v) => "=" + v;
    if name == [] {
      assert name + tail == tail;
      match value
      case None =>
      case Some(v) =>
        assert ("=" + v)[1..] == v;
    } else {
      NamedValue(name[1..], value);
      assert (name + tail)[1..] == name[1..] + tail;
    }
  }

  /** The entry found is the first with the name, and none is found only if there is none. */
  lemma {:induction false} FindLongIsFirst(table: seq<LongOpt>, name: string)
    ensures match FindLong(table, name)
            case None => forall i :: 0 <= i < |table| ==> table[i].longname != Some(name)
            case Some(e) =>
              exists i :: 0 <= i < |table| && table[i] == e && e.longname == Some(name)
                          && forall j :: 0 <= j < i ==> table[j].longname != Some(name)
  {
    if table != [] && table[0].longname != Some(name) {
      FindLongIsFirst(table[1..], name);
      match FindLong(table[1..], name)
      case None =>
        assert forall i :: 0 < i < |table| ==> table[i] == table[1..][i - 1];
      case Some(e) =>
        var i :| 0 <= i < |table| - 1 && table[1..][i] == e && e.longname == Some(name)
                 && forall j :: 0 <= j < i ==> table[1..][j].longname != Some(name);
        assert table[i + 1] == e;
        assert forall j :: 0 < j < i + 1 ==> table[j] == table[1..][j - 1];
    }
  }

  /** The type of a letter is that of the first entry with it. */
  lemma {:induction false} TableTypeIsFirst(table: seq<LongOpt>, c: char)
    requires c != '\0'
    ensures match TableType(table, c)
            case None => forall i :: 0 <= i < |table| ==> table[i].shortname != c
            case Some(t) =>
              exists i :: 0 <= i < |table| && table[i].shortname == c && table[i].argtype == t
                          && forall j :: 0 <= j < i ==> table[j].shortname != c
  {
    if table != [] && table[0].shortname != c {
      TableTypeIsFirst(table[1..], c);
      match TableType(table[1..], c)
      case None =>
        assert forall i :: 0 < i < |table| ==> table[i] == table[1..][i - 1];
      case Some(t) =>
        var i :| 0 <= i < |table| - 1 && table[1..][i].shortname == c && table[1..][i].argtype == t
                 && forall j :: 0 <= j < i ==> table[1..][j].shortname != c;
        assert table[i + 1] == table[1..][i];
        assert forall j :: 0 < j < i + 1 ==> table[j] == table[1..][j - 1];
    }
  }

  /** What begins with a dash and goes on is exactly one of three things, and nothing else is any of them. */
  lemma FormsOfArguments(arg: string)
    ensures var forms := (if IsDashdash(arg) then 1 else 0) + (if IsShortopt(arg) then 1 else 0) + (if IsLongopt(arg) then 1 else 0);
      forms == if |arg| >= 2 && arg[0] == '-' then 1 else 0
    ensures IsLongopt(arg) ==> arg[..2] == "--" && arg != "--"
    ensures IsShortopt(arg) ==> arg[..2] != "--"
  {
  }

  // ---------------------------------------------------------------- one call

  /** What a call reports, the arguments it consumes, those that remain, and the new cluster offset. */
  datatype Step = Step(seen: Seen, taken: seq<string>, rest: seq<string>, subopt: nat)

  function LetterType(mode: Mode, c: char): Option<ArgType> {
    match mode
    case Short(optstring) => ArgTypeOf(optstring, c)
    case Long(table) => ArgTypeOf(FromLong(table), c)
  }

  /** The short option a call comes to, if any. */
  function FirstShort(mode: Mode, permute: bool, rest: seq<string>): (first: Option<string>)
    ensures first.Some? ==> IsShortopt(first.value)
  {
    if rest == [] || IsDashdash(rest[0]) then None
    else if IsShortopt(rest[0]) then Some(rest[0])
    else if IsNonoption(mode, rest[0]) && permute then FirstShort(mode, permute, rest[1..])
    else None
  }

  /** The offset points into the short option the call comes to, or at the NUL that ends it. */
  predicate Ready(mode: Mode, permute: bool, rest: seq<string>, subopt: nat) {
    match FirstShort(mode, permute, rest)
    case None => true
    case Some(first) => subopt + 1 <= |first|
  }

  function ShortStep(mode: Mode, rest: seq<string>, subopt: nat): Step
    requires rest != [] && IsShortopt(rest[0]) && subopt + 1 <= |rest[0]|
  {
    if subopt + 1 == |rest[0]| then Step(Error(Invalid, '\0'), rest[..1], rest[1..], subopt)
    else
      var c, tail := rest[0][subopt + 1], rest[0][subopt + 2..];
      match LetterType(mode, c)
      case None => Step(Error(Invalid, c), rest[..1], rest[1..], subopt)
      case Some(NoArg) =>
        if tail != [] then Step(Opt(c, None), [], rest, subopt + 1)
        else Step(Opt(c, None), rest[..1], rest[1..], 0)
      case Some(Required) =>
        if tail != [] then Step(Opt(c, Some(tail)), rest[..1], rest[1..], 0)
        else if |rest| > 1 then Step(Opt(c, Some(rest[1])), rest[..2], rest[2..], 0)
        else Step(Error(Missing, c), rest[..1], rest[1..], 0)
      case Some(Optional) =>
        Step(Opt(c, if tail != [] then Some(tail) else None), rest[..1], rest[1..], 0)
  }

  function LongStep(table: seq<LongOpt>, rest: seq<string>, subopt: nat): Step
    requires rest != [] && IsLongopt(rest[0])
  {
    var option := rest[0][2..];
    match FindLong(table, NamePart(option))
    case None => Step(Error(Invalid, '\0'), rest[..1], rest[1..], subopt)
    case Some(e) =>
      var value := ValuePart(option);
      if e.argtype == NoArg && value.Some? then Step(Error(TooMany, e.shortname), rest[..1], rest[1..], subopt)
      else if value.Some? then Step(Opt(e.shortname, value), rest[..1], rest[1..], subopt)
      else if e.argtype == Required then
        if |rest| > 1 then Step(Opt(e.shortname, Some(rest[1])), rest[..2], rest[2..], subopt)
        else Step(Error(Missing, e.shortname), rest[..1], rest[1..], subopt)
      else Step(Opt(e.shortname, None), rest[..1], rest[1..], subopt)
  }

  /** One call of `optparse` or `optparse_long` on the arguments from `optind` on. */
  function Next(mode: Mode, permute: bool, rest: seq<string>, subopt: nat): (s: Step)
    requires Ready(mode, permute, rest, subopt)
    ensures |s.taken| + |s.rest| == |rest|
  {
    if rest == [] then Step(Done, [], [], subopt)
    else if IsDashdash(rest[0]) then Step(Done, rest[..1], rest[1..], subopt)
    else if IsShortopt(rest[0]) then ShortStep(mode, rest, subopt)
    else if mode.Long? && IsLongopt(rest[0]) then LongStep(mode.table, rest, subopt)
    else if permute then
      var s := Next(mode, permute, rest[1..], subopt);
      s.(rest := rest[..1] + s.rest)
    else Step(Done, [], rest, subopt)
  }

  lemma NextCases(mode: Mode, permute: bool, rest: seq<string>, subopt: nat)
    requires Ready(mode, permute, rest, subopt)
    ensures var s := Next(mode, permute, rest, subopt);
      if rest == [] then s == Step(Done, [], [], subopt)
      else if IsDashdash(rest[0]) then s == Step(Done, rest[..1], rest[1..], subopt)
      else if IsShortopt(rest[0]) then subopt + 1 <= |rest[0]| && s == ShortStep(mode, rest, subopt)
      else if !IsNonoption(mode, rest[0]) then s == LongStep(mode.table, rest, subopt)
      else if permute then
        && Ready(mode, permute, rest[1..], subopt)
        && var inner := Next(mode, permute, rest[1..], subopt);
           s == inner.(rest := rest[..1] + inner.rest) && |inner.taken| + |inner.rest| == |rest| - 1
      else s == Step(Done, [], rest, subopt)
  {
  }

  /** An offset left by an option read from a cluster, or none. */
  predicate Settled(mode: Mode, permute: bool, rest: seq<string>, subopt: nat) {
    subopt == 0 || (FirstShort(mode, permute, rest).Some? && subopt + 1 < |FirstShort(mode, permute, rest).value|)
  }

  /** After an option the offset is on a letter of the same cluster, or zero. */
  lemma {:induction false} NextReady(mode: Mode, permute: bool, rest: seq<string>, subopt: nat)
    requires Settled(mode, permute, rest, subopt)
    ensures Ready(mode, permute, rest, subopt)
    ensures var s := Next(mode, permute, rest, subopt);
      s.seen.Opt? ==> Settled(mode, permute, s.rest, s.subopt)
  {
    if rest != [] && IsNonoption(mode, rest[0]) && permute {
      NextReady(mode, permute, rest[1..], subopt);
      var s := Next(mode, permute, rest[1..], subopt);
      assert (rest[..1] + s.rest)[1..] == s.rest;
    }
  }

  /**
   An invalid letter leaves the offset where it is, and only a missing argument of a short option resets it
   on an error. The call after an invalid letter is within bounds exactly when there was no offset, or no
   short option is reached, or the one that is has as many letters.
   */
  lemma {:induction false} InvalidKeepsOffset(mode: Mode, permute: bool, rest: seq<string>, subopt: nat)
    requires Ready(mode, permute, rest, subopt)
    ensures var s := Next(mode, permute, rest, subopt);
      s.seen.Error? ==>
        && s.subopt == (if FirstShort(mode, permute, rest).Some? && s.seen.problem == Missing then 0 else subopt)
        && (Ready(mode, permute, s.rest, s.subopt) <==>
              s.subopt == 0 || FirstShort(mode, permute, s.rest).None?
              || s.subopt <= |FirstShort(mode, permute, s.rest).value| - 1)
  {
    if rest != [] && IsNonoption(mode, rest[0]) && permute {
      InvalidKeepsOffset(mode, permute, rest[1..], subopt);
    }
  }

  // ---------------------------------------------------------------- all calls

  /**
   The outcome of calling until the end, errors and all. `Lost` means that the next call would read
   beyond the end of an argument.
   */
  datatype Parse = Parsed(seen: seq<Seen>, taken: seq<string>, operands: seq<string>) | Lost(seen: seq<Seen>)

  /** An outcome with earlier reports and arguments put before it. */
  function After(seen: seq<Seen>, taken: seq<string>, p: Parse): Parse {
    match p
    case Parsed(o, t, r) => Parsed(seen + o, taken + t, r)
    case Lost(o) => Lost(seen + o)
  }

  function WithOperand(arg: string, p: Parse): Parse {
    match p
    case Parsed(o, t, r) => Parsed(o, t, [arg] + r)
    case Lost(o) => p
  }

  /** The letters from the offset on of the short option the next call comes to. */
  function LettersLeft(mode: Mode, permute: bool, rest: seq<string>, subopt: nat): nat {
    match FirstShort(mode, permute, rest)
    case None => 0
    case Some(first) => if subopt <= |first| then |first| - subopt else 0
  }

  /** Every call that does not end the parsing consumes an argument or moves on inside one. */
  lemma {:induction false} NextProgress(mode: Mode, permute: bool, rest: seq<string>, subopt: nat)
    requires Ready(mode, permute, rest, subopt) && !Next(mode, permute, rest, subopt).seen.Done?
    ensures var s := Next(mode, permute, rest, subopt);
      || |s.rest| < |rest|
      || (s.rest == rest && LettersLeft(mode, permute, s.rest, s.subopt) < LettersLeft(mode, permute, rest, subopt))
  {
    hide LetterType, FindLong, ValuePart, NamePart;
    if IsNonoption(mode, rest[0]) {
      NextProgress(mode, permute, rest[1..], subopt);
      var s := Next(mode, permute, rest[1..], subopt);
      if |s.rest| == |rest[1..]| {
        assert rest[..1] + s.rest == rest;
      }
    }
  }

  /** Calling `optparse` or `optparse_long` until it returns -1. */
  function Iterate(mode: Mode, permute: bool, rest: seq<string>, subopt: nat): Parse
    decreases |rest|, LettersLeft(mode, permute, rest, subopt)
  {
    if !Ready(mode, permute, rest, subopt) then Lost([])
    else
      var s := Next(mode, permute, rest, subopt);
      if s.seen.Done? then Parsed([], s.taken, s.rest)
      else
        NextProgress(mode, permute, rest, subopt);
        After([s.seen], s.taken, Iterate(mode, permute, s.rest, s.subopt))
  }

  lemma IterateUnfolds(mode: Mode, permute: bool, rest: seq<string>, subopt: nat)
    requires Ready(mode, permute, rest, subopt)
    ensures var s := Next(mode, permute, rest, subopt);
      Iterate(mode, permute, rest, subopt) ==
        if s.seen.Done? then Parsed([], s.taken, s.rest)
        else After([s.seen], s.taken, Iterate(mode, permute, s.rest, s.subopt))
  {
  }

  /** An option without an argument, and the next report an invalid one: what leaves an offset behind. */
  predicate InvalidAfterFlag(seen: seq<Seen>, j: nat) {
    && j + 1 < |seen| && seen[j].Opt? && seen[j].optarg.None?
    && seen[j + 1].Error? && seen[j + 1].problem == Invalid
  }

  /**
   A parser that starts without an offset gets lost only after an option without an argument directly followed by
   an invalid one. A client that stops at either never gets lost.
   */
  lemma {:induction false} LostNeedsInvalid(mode: Mode, permute: bool, rest: seq<string>, subopt: nat)
    requires Settled(mode, permute, rest, subopt) && Iterate(mode, permute, rest, subopt).Lost?
    ensures var seen := Iterate(mode, permute, rest, subopt).seen;
      || (exists j: nat :: InvalidAfterFlag(seen, j))
      || (subopt > 0 && seen != [] && seen[0].Error? && seen[0].problem == Invalid)
    decreases |rest|, LettersLeft(mode, permute, rest, subopt)
  {
    hide Next, FirstShort;
    NextReady(mode, permute, rest, subopt);
    NextProgress(mode, permute, rest, subopt);
    IterateUnfolds(mode, permute, rest, subopt);
    var s := Next(mode, permute, rest, subopt);
    var r := Iterate(mode, permute, s.rest, s.subopt);
    var seen := [s.seen] + r.seen;
    InvalidKeepsOffset(mode, permute, rest, subopt);
    OffsetFromFlag(mode, permute, rest, subopt);
    if s.seen.Opt? || s.subopt == 0 {
      LostNeedsInvalid(mode, permute, s.rest, s.subopt);
      if j: nat :| InvalidAfterFlag(r.seen, j) {
        assert seen[j + 1] == r.seen[j] && seen[j + 2] == r.seen[j + 1];
        assert InvalidAfterFlag(seen, j + 1);
      } else {
        assert seen[1] == r.seen[0];
        assert InvalidAfterFlag(seen, 0);
      }
    } else {
      ErrorKind(mode, permute, rest, subopt);
    }
  }

  /** An offset is left by an option only if that has no argument. */
  lemma {:induction false} OffsetFromFlag(mode: Mode, permute: bool, rest: seq<string>, subopt: nat)
    requires Settled(mode, permute, rest, subopt) && Ready(mode, permute, rest, subopt)
    ensures var s := Next(mode, permute, rest, subopt); s.seen.Opt? && s.subopt > 0 ==> s.seen.optarg.None?
  {
    if rest != [] && IsNonoption(mode, rest[0]) && permute {
      OffsetFromFlag(mode, permute, rest[1..], subopt);
    }
  }

  /** Short options have no argument too many. */
  lemma {:induction false} ErrorKind(mode: Mode, permute: bool, rest: seq<string>, subopt: nat)
    requires Ready(mode, permute, rest, subopt) && FirstShort(mode, permute, rest).Some?
    ensures var s := Next(mode, permute, rest, subopt); s.seen.Error? ==> s.seen.problem != TooMany
  {
    if IsNonoption(mode, rest[0]) {
      ErrorKind(mode, permute, rest[1..], subopt);
    }
  }

  // ---------------------------------------------------------------- the one-pass parser

  /** What is read of one argument, whether the next argument is used up, and the offset that is left. */
  datatype Reading = Reading(seen: seq<Seen>, usesNext: bool, offset: nat)

  function TypeIn(mode: Mode, c: char): Option<ArgType> {
    match mode
    case Short(optstring) => ArgTypeOf(optstring, c)
    case Long(table) => TableType(table, c)
  }

  /** The letters of a cluster from number `k` on. */
  function ScanCluster(mode: Mode, letters: string, k: nat, more: seq<string>): (c: Reading)
    requires k <= |letters|
    ensures c.usesNext ==> more != []
    decreases |letters| - k
  {
    if k == |letters| then Reading([Error(Invalid, '\0')], false, k)
    else
      var c, tail := letters[k], letters[k + 1..];
      match TypeIn(mode, c)
      case None => Reading([Error(Invalid, c)], false, k)
      case Some(NoArg) =>
        if tail == [] then Reading([Opt(c, None)], false, 0)
        else
          var others := ScanCluster(mode, letters, k + 1, more);
          others.(seen := [Opt(c, None)] + others.seen)
      case Some(Required) =>
        if tail != [] then Reading([Opt(c, Some(tail))], false, 0)
        else if more != [] then Reading([Opt(c, Some(more[0]))], true, 0)
        else Reading([Error(Missing, c)], false, 0)
      case Some(Optional) =>
        Reading([Opt(c, if tail != [] then Some(tail) else None)], false, 0)
  }

  function ScanLong(table: seq<LongOpt>, option: string, k: nat, more: seq<string>): (c: Reading)
    ensures c.usesNext ==> more != []
  {
    match FindLong(table, NamePart(option))
    case None => Reading([Error(Invalid, '\0')], false, k)
    case Some(e) =>
      match (e.argtype, ValuePart(option))
      case (NoArg, Some(_)) => Reading([Error(TooMany, e.shortname)], false, k)
      case (_, Some(v)) => Reading([Opt(e.shortname, Some(v))], false, k)
      case (Required, None) =>
        if more != [] then Reading([Opt(e.shortname, Some(more[0]))], true, k)
        else Reading([Error(Missing, e.shortname)], false, k)
      case (_, None) => Reading([Opt(e.shortname, None)], false, k)
  }

  /** What is read of the option in front, `k` letters of it being passed over if it is a cluster. */
  function ScanOption(mode: Mode, args: seq<string>, k: nat): (c: Reading)
    requires args != [] && !IsDashdash(args[0]) && !IsNonoption(mode, args[0])
    requires IsShortopt(args[0]) ==> k + 1 <= |args[0]|
    ensures c.usesNext ==> |args| > 1
  {
    if IsShortopt(args[0]) then ScanCluster(mode, args[0][1..], k, args[1..])
    else ScanLong(mode.table, args[0][2..], k, args[1..])
  }

  /** Left to right, argument by argument, nothing moved; `k` letters of the first cluster are passed over. */
  function Scan(mode: Mode, permute: bool, args: seq<string>, k: nat): Parse {
    if args == [] then Parsed([], [], [])
    else if IsDashdash(args[0]) then Parsed([], args[..1], args[1..])
    else if IsNonoption(mode, args[0]) then
      if permute then WithOperand(args[0], Scan(mode, permute, args[1..], k)) else Parsed([], [], args)
    else if IsShortopt(args[0]) && k + 1 > |args[0]| then Lost([])
    else
      var c := ScanOption(mode, args, k);
      var n := if c.usesNext then 2 else 1;
      After(c.seen, args[..n], Scan(mode, permute, args[n..], c.offset))
  }

  // ---------------------------------------------------------------- calling until the end is scanning once

  /** A non-option in front is passed over and put back, by every call. */
  lemma {:induction false} IterateSkips(mode: Mode, rest: seq<string>, subopt: nat)
    requires rest != [] && IsNonoption(mode, rest[0])
    ensures Iterate(mode, true, rest, subopt) == WithOperand(rest[0], Iterate(mode, true, rest[1..], subopt))
    decreases |rest|, LettersLeft(mode, true, rest, subopt)
  {
    hide ShortStep, LongStep;
    if Ready(mode, true, rest, subopt) {
      var s := Next(mode, true, rest[1..], subopt);
      var s' := Next(mode, true, rest, subopt);
      assert s' == s.(rest := rest[..1] + s.rest);
      IterateUnfolds(mode, true, rest, subopt);
      IterateUnfolds(mode, true, rest[1..], subopt);
      if s.seen.Done? {
        assert rest[..1] + s.rest == [rest[0]] + s.rest;
      } else {
        NextProgress(mode, true, rest, subopt);
        assert s'.rest[1..] == s.rest;
        IterateSkips(mode, s'.rest, s.subopt);
      }
    }
  }

  /** Letter types agree: the table read through its option string is the table. */
  lemma LetterTypeIsTableType(mode: Mode, c: char)
    requires mode.Long? ==> WellFormed(mode.table)
    requires c != '\0'
    ensures LetterType(mode, c) == TypeIn(mode, c)
  {
    if mode.Long? {
      FromLongDecodes(mode.table, c);
    }
  }

  function Finish(c: Reading, mode: Mode, permute: bool, args: seq<string>): Parse
    requires args != [] && (c.usesNext ==> |args| > 1)
  {
    var n := if c.usesNext then 2 else 1;
    After(c.seen, args[..n], Scan(mode, permute, args[n..], c.offset))
  }

  /** Calls inside a cluster report the letters one by one and consume the argument with the last. */
  lemma {:induction false} IterateCluster(mode: Mode, permute: bool, args: seq<string>, subopt: nat)
    requires mode.Long? ==> WellFormed(mode.table)
    requires AreTexts(args)
    requires args != [] && IsShortopt(args[0]) && subopt + 1 <= |args[0]|
    ensures Iterate(mode, permute, args, subopt) ==
              Finish(ScanCluster(mode, args[0][1..], subopt, args[1..]), mode, permute, args)
    decreases |args|, |args[0]| - subopt
  {
    hide Scan, TypeIn, LetterType, WellFormed, IsNonoption, ShortStep, ScanCluster;
    assert IsText(args[0]);
    if subopt + 1 < |args[0]| {
      LetterTypeIsTableType(mode, args[0][subopt + 1]);
    }
    var s := ShortStep(mode, args, subopt);
    assert s == Next(mode, permute, args, subopt);
    ClusterStep(mode, args, subopt);
    IterateUnfolds(mode, permute, args, subopt);
    hide Iterate, Next, After;
    if s.taken == [] {
      IterateCluster(mode, permute, args, subopt + 1);
      AfterFinish(s.seen, ScanCluster(mode, args[0][1..], subopt + 1, args[1..]), mode, permute, args);
    } else {
      IterateIsScan(mode, permute, s.rest, s.subopt);
    }
  }

  /** A call inside a cluster reads its next letter; one that consumes the argument reads its last. */
  lemma ClusterStep(mode: Mode, args: seq<string>, subopt: nat)
    requires args != [] && IsShortopt(args[0]) && subopt + 1 <= |args[0]|
    requires subopt + 1 < |args[0]| ==> LetterType(mode, args[0][subopt + 1]) == TypeIn(mode, args[0][subopt + 1])
    ensures var s, c := ShortStep(mode, args, subopt), ScanCluster(mode, args[0][1..], subopt, args[1..]);
      if s.taken == [] then
        && s.seen.Opt? && subopt + 2 < |args[0]| && s.rest == args && s.subopt == subopt + 1
        && var c' := ScanCluster(mode, args[0][1..], subopt + 1, args[1..]);
           c == c'.(seen := [s.seen] + c'.seen)
      else
        && !s.seen.Done? && c == Reading([s.seen], |s.taken| == 2, s.subopt)
        && |s.taken| <= 2 && s.taken == args[..|s.taken|] && s.rest == args[|s.taken|..]
  {
    hide TypeIn, LetterType;
    var letters := args[0][1..];
    if subopt + 1 < |args[0]| {
      assert letters[subopt] == args[0][subopt + 1];
      assert letters[subopt + 1..] == args[0][subopt + 2..];
    }
  }

  lemma AfterFinish(seen: Seen, c: Reading, mode: Mode, permute: bool, args: seq<string>)
    requires args != [] && (c.usesNext ==> |args| > 1)
    ensures After([seen], [], Finish(c, mode, permute, args)) == Finish(c.(seen := [seen] + c.seen), mode, permute, args)
  {
    var n := if c.usesNext then 2 else 1;
    AfterAfter([seen], [], c.seen, args[..n], Scan(mode, permute, args[n..], c.offset));
    assert [] + args[..n] == args[..n];
  }

  lemma AfterAfter(o1: seq<Seen>, t1: seq<string>, o2: seq<Seen>, t2: seq<string>, p: Parse)
    ensures After(o1, t1, After(o2, t2, p)) == After(o1 + o2, t1 + t2, p)
  {
    match p
    case Parsed(o, t, r) =>
      assert o1 + (o2 + o) == o1 + o2 + o && t1 + (t2 + t) == t1 + t2 + t;
    case Lost(o) =>
      assert o1 + (o2 + o) == o1 + o2 + o;
  }

  /**
   The calls a client makes until -1 report and move what the one-pass parser reads off, from any offset
   and through any errors; and get lost where it does.
   */
  lemma {:induction false} IterateIsScan(mode: Mode, permute: bool, args: seq<string>, k: nat)
    requires mode.Long? ==> WellFormed(mode.table)
    requires AreTexts(args)
    ensures Iterate(mode, permute, args, k) == Scan(mode, permute, args, k)
    decreases |args|
  {
    hide TypeIn, LetterType, IsText, WellFormed, ScanCluster, ShortStep, LongStep, ScanLong;
    if args == [] || IsDashdash(args[0]) {
    } else if IsNonoption(mode, args[0]) {
      if permute {
        IterateSkips(mode, args, k);
        IterateIsScan(mode, permute, args[1..], k);
      }
    } else if IsShortopt(args[0]) {
      if k + 1 <= |args[0]| {
        IterateCluster(mode, permute, args, k);
      }
    } else {
      LongEnds(mode.table, args, k);
      var s := LongStep(mode.table, args, k);
      assert s == Next(mode, permute, args, k);
      IterateUnfolds(mode, permute, args, k);
      IterateIsScan(mode, permute, s.rest, s.subopt);
    }
  }

  /** A long option is what the scanner reads of it. */
  lemma LongEnds(table: seq<LongOpt>, args: seq<string>, k: nat)
    requires args != [] && IsLongopt(args[0])
    ensures var s, c := LongStep(table, args, k), ScanLong(table, args[0][2..], k, args[1..]);
      && !s.seen.Done? && c == Reading([s.seen], |s.taken| == 2, s.subopt)
      && 1 <= |s.taken| <= 2 && s.taken == args[..|s.taken|] && s.rest == args[|s.taken|..]
  {
  }

  // ---------------------------------------------------------------- options written out are read back

  /** An option somebody wants to give. */
  datatype Use =
    | LongUse(name: string, value: Option<string>)
    | ShortUse(flags: string, letter: char, value: Option<string>)   // letters without arguments may go before

  /** A use the table allows. */
  predicate Allowed(table: seq<LongOpt>, u: Use) {
    match u
    case LongUse(name, value) =>
      && name != "" && '=' !in name && FindLong(table, name).Some?
      && FindLong(table, name).value.argtype != (if value.Some? then NoArg else Required)
    case ShortUse(flags, c, value) =>
      && (flags + [c])[0] != '-' && c != '\0'
      && (forall f :: f in flags ==> f != '\0' && TableType(table, f) == Some(NoArg))
      && (match TableType(table, c)
          case None => false
          case Some(NoArg) => value == None
          case Some(Required) => value.Some?
          case Some(Optional) => value != Some(""))
  }

  /** How it is written. */
  function Written(table: seq<LongOpt>, u: Use): seq<string> {
    match u
    case LongUse(name, value) => ["--" + name + (match value case None => "" case Some(v) => "=" + v)]
    case ShortUse(flags, c, None) => ["-" + (flags + [c])]
    case ShortUse(flags, c, Some(v)) => if v == "" then ["-" + (flags + [c]), v] else ["-" + (flags + ([c] + v))]
  }

  function Flags(flags: string): seq<Seen> {
    if flags == [] then [] else [Opt(flags[0], None)] + Flags(flags[1..])
  }

  /** How it is to be reported. */
  function Report(table: seq<LongOpt>, u: Use): seq<Seen>
    requires Allowed(table, u)
  {
    match u
    case LongUse(name, value) => [Opt(FindLong(table, name).value.shortname, value)]
    case ShortUse(flags, c, value) => Flags(flags) + [Opt(c, value)]
  }

  function AllWritten(table: seq<LongOpt>, us: seq<Use>): seq<string> {
    if us == [] then [] else Written(table, us[0]) + AllWritten(table, us[1..])
  }

  function Reports(table: seq<LongOpt>, us: seq<Use>): seq<Seen>
    requires forall u :: u in us ==> Allowed(table, u)
  {
    if us == [] then [] else Report(table, us[0]) + Reports(table, us[1..])
  }

  /** The letters without arguments in front of a cluster. */
  lemma {:induction false} FlagsAreRead(mode: Mode, flags: string, tail: string, k: nat, more: seq<string>)
    requires k <= |flags| && tail != "" && forall f :: f in flags ==> TypeIn(mode, f) == Some(NoArg)
    ensures var c := ScanCluster(mode, flags + tail, |flags|, more);
      ScanCluster(mode, flags + tail, k, more) == c.(seen := Flags(flags[k..]) + c.seen)
    decreases |flags| - k
  {
    hide TypeIn, ScanCluster;
    var letters := flags + tail;
    if k < |flags| {
      assert letters[k] == flags[k] && flags[k] in flags && |letters| > k + 1;
      FlagIsRead(mode, letters, k, more);
      FlagsAreRead(mode, flags, tail, k + 1, more);
      assert flags[k..] == [flags[k]] + flags[k + 1..];
      FlagsFirst(flags[k], flags[k + 1..], ScanCluster(mode, letters, |flags|, more).seen);
    } else {
      assert flags[k..] == [];
      assert Flags([]) + ScanCluster(mode, letters, |flags|, more).seen == ScanCluster(mode, letters, |flags|, more).seen;
    }
  }

  lemma FlagIsRead(mode: Mode, letters: string, k: nat, more: seq<string>)
    requires k + 1 < |letters| && TypeIn(mode, letters[k]) == Some(NoArg)
    ensures var others := ScanCluster(mode, letters, k + 1, more);
      ScanCluster(mode, letters, k, more) == others.(seen := [Opt(letters[k], None)] + others.seen)
  {
    hide TypeIn;
  }

  lemma FlagsFirst(f: char, flags: string, seen: seq<Seen>)
    ensures [Opt(f, None)] + (Flags(flags) + seen) == Flags([f] + flags) + seen
  {
    assert ([f] + flags)[1..] == flags;
  }

  lemma UseIsRead(table: seq<LongOpt>, u: Use, rest: seq<string>)
    requires Allowed(table, u)
    ensures var args, n := Written(table, u) + rest, |Written(table, u)|;
      && 1 <= n <= 2 && !IsDashdash(args[0]) && !IsNonoption(Long(table), args[0])
      && ScanOption(Long(table), args, 0) == Reading(Report(table, u), n == 2, 0)
      && args[n..] == rest && args[..n] == Written(table, u)
  {
    match u
    case LongUse(name, value) => LongIsRead(table, name, value, rest);
    case ShortUse(flags, c, value) => ShortIsRead(table, flags, c, value, rest);
  }

  lemma LongIsRead(table: seq<LongOpt>, name: string, value: Option<string>, rest: seq<string>)
    requires Allowed(table, LongUse(name, value))
    ensures var u := LongUse(name, value);
      var args := Written(table, u) + rest;
      && |Written(table, u)| == 1 && !IsDashdash(args[0]) && !IsNonoption(Long(table), args[0])
      && ScanOption(Long(table), args, 0) == Reading(Report(table, u), false, 0)
      && args[1..] == rest && args[..1] == Written(table, u)
  {
    var args := Written(table, LongUse(name, value)) + rest;
    var tail := match value case None => "" case Some(v) => "=" + v;
    assert args[0] == "--" + (name + tail) && args[0][2..] == name + tail && args[0][2] == name[0];
    NamedValue(name, value);
    hide NamePart, ValuePart, FindLong;
  }

  lemma ShortIsRead(table: seq<LongOpt>, flags: string, c: char, value: Option<string>, rest: seq<string>)
    requires Allowed(table, ShortUse(flags, c, value))
    ensures var u := ShortUse(flags, c, value);
      var args, n := Written(table, u) + rest, |Written(table, u)|;
      && 1 <= n <= 2 && IsShortopt(args[0])
      && ScanOption(Long(table), args, 0) == Reading(Report(table, u), n == 2, 0)
      && args[n..] == rest && args[..n] == Written(table, u)
  {
    var mode, args := Long(table), Written(table, ShortUse(flags, c, value)) + rest;
    var tail := [c] + if value.Some? then value.value else "";
    assert tail == [c] || tail != [c];
    var letters := flags + tail;
    assert args[0] == "-" + letters && args[0][1..] == letters && letters[0] == (flags + [c])[0];
    FlagsAreRead(mode, flags, tail, 0, args[1..]);
    assert flags[0..] == flags;
    assert letters[|flags|] == c && letters[|flags| + 1..] == tail[1..] && tail[1..] == if value.Some? then value.value else "";
    hide TableType, Flags;
  }

  /** And what a table does not allow is refused for what it is; a missing argument is taken from the next one if there is any. */
  lemma MisusesAreReported(table: seq<LongOpt>, name: string, v: string, rest: seq<string>)
    requires name != "" && '=' !in name
    ensures var plain, given := ScanOption(Long(table), ["--" + name] + rest, 0), ScanOption(Long(table), ["--" + name + "=" + v] + rest, 0);
      match FindLong(table, name)
      case None => plain == given == Reading([Error(Invalid, '\0')], false, 0)
      case Some(e) =>
        && (e.argtype == NoArg ==> given == Reading([Error(TooMany, e.shortname)], false, 0))
        && (e.argtype == Required ==>
              plain == if rest == [] then Reading([Error(Missing, e.shortname)], false, 0)
                       else Reading([Opt(e.shortname, Some(rest[0]))], true, 0))
  {
    assert ("--" + name)[2..] == name + "" && ("--" + name + "=" + v)[2..] == name + ("=" + v);
    assert (["--" + name] + rest)[1..] == rest && (["--" + name + "=" + v] + rest)[1..] == rest;
    assert ("--" + name)[2] == name[0] && name + "" == name;
    NamedValue(name, None);
    NamedValue(name, Some(v));
    hide NamePart, ValuePart, FindLong;
  }

  /** Whatever options are written out, followed by "--" and operands, the parser reports them as they were meant. */
  lemma {:induction false} WrittenIsRead(table: seq<LongOpt>, permute: bool, us: seq<Use>, operands: seq<string>)
    requires forall u :: u in us ==> Allowed(table, u)
    ensures Scan(Long(table), permute, AllWritten(table, us) + ["--"] + operands, 0)
         == Parsed(Reports(table, us), AllWritten(table, us) + ["--"], operands)
  {
    if us == [] {
      var end := ["--"] + operands;
      assert [] + ["--"] + operands == end && [] + ["--"] == ["--"];
      assert end[..1] == ["--"] && end[1..] == operands;
    } else {
      var first, more := Written(table, us[0]), AllWritten(table, us[1..]);
      var rest := more + ["--"] + operands;
      assert us[0] in us && forall u :: u in us[1..] ==> u in us;
      assert AllWritten(table, us) == first + more && Reports(table, us) == Report(table, us[0]) + Reports(table, us[1..]);
      hide *;
      UseIsRead(table, us[0], rest);
      WrittenIsRead(table, permute, us[1..], operands);
      FirstOfAll(first, more, operands);
      ScanOnward(Long(table), permute, first + rest);
      AfterParsed(Report(table, us[0]), first, Reports(table, us[1..]), more + ["--"], operands);
    }
  }

  lemma FirstOfAll(first: seq<string>, more: seq<string>, operands: seq<string>)
    ensures first + more + ["--"] + operands == first + (more + ["--"] + operands)
    ensures first + more + ["--"] == first + (more + ["--"])
  {
  }

  lemma AfterParsed(s: seq<Seen>, t: seq<string>, seen: seq<Seen>, taken: seq<string>, operands: seq<string>)
    ensures After(s, t, Parsed(seen, taken, operands)) == Parsed(s + seen, t + taken, operands)
  {
  }

  lemma ScanOnward(mode: Mode, permute: bool, args: seq<string>)
    requires args != [] && !IsDashdash(args[0]) && !IsNonoption(mode, args[0])
    ensures var c := ScanOption(mode, args, 0);
      var n := if c.usesNext then 2 else 1;
      Scan(mode, permute, args, 0) == After(c.seen, args[..n], Scan(mode, permute, args[n..], c.offset))
  {
    hide ScanOption;
  }

  // ---------------------------------------------------------------- what an offset left behind does

  /** The arguments the option in front consumes, if it is a long one. */
  function LongSpan(mode: Mode, args: seq<string>): (n: nat)
    requires args != [] && !IsDashdash(args[0]) && !IsNonoption(mode, args[0]) && !IsShortopt(args[0])
    ensures 1 <= n <= |args|
  {
    if ScanLong(mode.table, args[0][2..], 0, args[1..]).usesNext then 2 else 1
  }

  /**
   Arguments an offset makes no difference to, whatever the letters mean: up to the end there is no short option
   but such as have a colon, which is never an option, both as their first letter and as the one at the offset.
   */
  predicate Unaffected(mode: Mode, permute: bool, args: seq<string>, k: nat) {
    if args == [] || IsDashdash(args[0]) then true
    else if IsShortopt(args[0]) then
      k + 1 < |args[0]| && args[0][1] == ':' == args[0][k + 1] && Unaffected(mode, permute, args[1..], k)
    else if IsNonoption(mode, args[0]) then permute ==> Unaffected(mode, permute, args[1..], k)
    else Unaffected(mode, permute, args[LongSpan(mode, args)..], k)
  }

  /** Parsers of the same kind that may differ in what letters mean: long options are the same. */
  ghost predicate Alike(mode: Mode, other: Mode) {
    match (mode, other)
    case (Short(_), Short(optstring)) => IsText(optstring)
    case (Long(table), Long(table')) =>
      && WellFormed(table')
      && forall name :: SameLong(FindLong(table, name), FindLong(table', name))
    case _ => false
  }

  predicate SameLong(e: Option<LongOpt>, e': Option<LongOpt>) {
    e.Some? == e'.Some? && (e.Some? ==> e.value.argtype == e'.value.argtype)
  }

  lemma AlikeLong(mode: Mode, other: Mode, args: seq<string>, k: nat)
    requires Alike(mode, other) && args != [] && !IsDashdash(args[0]) && !IsNonoption(mode, args[0]) && !IsShortopt(args[0])
    ensures !IsNonoption(other, args[0]) && LongSpan(other, args) == LongSpan(mode, args)
    ensures var c, c0 := ScanOption(other, args, k), ScanOption(other, args, 0);
      && c.seen == c0.seen && c.offset == k && c0.offset == 0
      && c.usesNext == c0.usesNext == (LongSpan(mode, args) == 2)
  {
    var name := NamePart(args[0][2..]);
    assert SameLong(FindLong(mode.table, name), FindLong(other.table, name));
  }

  /**
   A parser with an offset left behind does what a fresh parser does, for all meanings of the letters alike,
   exactly when there is no offset or no argument it makes a difference to.
   */
  lemma OffsetMattersIff(mode: Mode, permute: bool, args: seq<string>, k: nat)
    requires AreTexts(args)
    ensures (forall other :: Alike(mode, other) ==> Iterate(other, permute, args, k) == Iterate(other, permute, args, 0))
       <==> k == 0 || Unaffected(mode, permute, args, k)
  {
    hide Iterate, Scan, Unaffected, IsText, Alike;
    if k == 0 || Unaffected(mode, permute, args, k) {
      forall other | Alike(mode, other)
        ensures Iterate(other, permute, args, k) == Iterate(other, permute, args, 0)
      {
        AlikeIsWellFormed(mode, other);
        IterateIsScan(other, permute, args, k);
        IterateIsScan(other, permute, args, 0);
        if k > 0 {
          SameScan(mode, other, permute, args, k);
        }
      }
    } else {
      var other := Telling(mode, permute, args, k);
      AlikeIsWellFormed(mode, other);
      IterateIsScan(other, permute, args, k);
      IterateIsScan(other, permute, args, 0);
      assert Iterate(other, permute, args, k) != Iterate(other, permute, args, 0);
    }
  }

  lemma AlikeIsWellFormed(mode: Mode, other: Mode)
    requires Alike(mode, other)
    ensures other.Long? ==> WellFormed(other.table)
  {
  }

  lemma ColonHasNoType(mode: Mode)
    requires mode.Long? ==> WellFormed(mode.table)
    ensures TypeIn(mode, ':') == None
  {
    if mode.Long? {
      NoColonEntry(mode.table);
    }
  }

  lemma {:induction false} SameScan(mode: Mode, other: Mode, permute: bool, args: seq<string>, k: nat)
    requires Alike(mode, other) && Unaffected(mode, permute, args, k)
    ensures Scan(other, permute, args, k) == Scan(other, permute, args, 0)
    decreases |args|
  {
    if args != [] && !IsDashdash(args[0]) {
      if IsShortopt(args[0]) {
        ColonReading(mode, other, args, k);
        SameScan(mode, other, permute, args[1..], k);
      } else if IsNonoption(mode, args[0]) {
        if permute {
          SameScan(mode, other, permute, args[1..], k);
        }
      } else {
        AlikeLong(mode, other, args, k);
        hide Alike, ScanOption, LongSpan;
        SameScan(mode, other, permute, args[LongSpan(mode, args)..], k);
      }
    }
  }

  /** A colon is refused wherever it stands, and the offset stays. */
  lemma ColonReading(mode: Mode, other: Mode, args: seq<string>, k: nat)
    requires Alike(mode, other) && args != [] && IsShortopt(args[0])
    requires k + 1 < |args[0]| && args[0][1] == ':' == args[0][k + 1]
    ensures ScanOption(other, args, k) == Reading([Error(Invalid, ':')], false, k)
    ensures ScanOption(other, args, 0) == Reading([Error(Invalid, ':')], false, 0)
  {
    ColonHasNoType(other);
    assert args[0][1..][0] == ':' && args[0][1..][k] == ':';
  }

  /** The entries of a table without their short names. */
  function StripShort(table: seq<LongOpt>): seq<LongOpt> {
    if table == [] then []
    else (if table[0].longname.Some? then [table[0].(shortname := '\0')] else []) + StripShort(table[1..])
  }

  /** Parsers alike in which one letter, or none, is an option, and takes an optional argument. */
  function OneLetter(mode: Mode, c: char): Mode {
    match mode
    case Short(_) => Short(if c == '\0' then "" else [c] + "::")
    case Long(table) => Long(StripShort(table) + if c == '\0' then [] else [LongOpt(None, c, Optional)])
  }

  lemma OneLetterIsAlike(mode: Mode, c: char)
    requires c != ':'
    ensures Alike(mode, OneLetter(mode, c))
    ensures forall d :: d != '\0' ==> TypeIn(OneLetter(mode, c), d) == if d == c then Some(Optional) else None
  {
    match mode
    case Short(_) =>
      if c != '\0' {
        OptionalFirst([c] + "::", c);
      }
    case Long(table) =>
      var tail := if c == '\0' then [] else [LongOpt(None, c, Optional)];
      forall name: string
        ensures SameLong(FindLong(table, name), FindLong(StripShort(table) + tail, name))
      {
        assert forall e :: e in tail ==> e.longname.None?;
        StripFinds(table, tail, name);
      }
      forall d | d != '\0'
        ensures TableType(StripShort(table) + tail, d) == if d == c then Some(Optional) else None
      {
        StripTypes(table, tail, d);
        assert tail != [] ==> tail[1..] == [];
      }
      StripWellFormed(table);
  }

  lemma {:induction false} StripFinds(table: seq<LongOpt>, tail: seq<LongOpt>, name: string)
    requires |tail| <= 1 && forall e :: e in tail ==> e.longname.None?
    ensures SameLong(FindLong(table, name), FindLong(StripShort(table) + tail, name))
  {
    if table == [] {
      assert [] + tail == tail && (tail != [] ==> tail[1..] == []);
    } else {
      StripFinds(table[1..], tail, name);
      var rest := StripShort(table[1..]);
      if table[0].longname.Some? {
        assert (StripShort(table) + tail)[1..] == rest + tail;
      } else {
        assert StripShort(table) == rest;
      }
    }
  }

  lemma {:induction false} StripTypes(table: seq<LongOpt>, tail: seq<LongOpt>, d: char)
    requires d != '\0'
    ensures TableType(StripShort(table) + tail, d) == TableType(tail, d)
  {
    hide TableType;
    if table == [] {
      assert [] + tail == tail;
    } else {
      StripTypes(table[1..], tail, d);
      var rest := StripShort(table[1..]);
      if table[0].longname.Some? {
        var e := table[0].(shortname := '\0');
        TypePast(e, rest + tail, d);
        assert StripShort(table) + tail == [e] + (rest + tail);
      } else {
        assert StripShort(table) == rest;
      }
    }
  }

  lemma TypePast(e: LongOpt, table: seq<LongOpt>, d: char)
    requires e.shortname != d && d != '\0'
    ensures TableType([e] + table, d) == TableType(table, d)
  {
    assert ([e] + table)[1..] == table;
  }

  lemma {:induction false} StripWellFormed(table: seq<LongOpt>)
    ensures forall e :: e in StripShort(table) ==> e.shortname == '\0' && e.longname.Some?
  {
    if table != [] {
      StripWellFormed(table[1..]);
    }
  }

  /** With a single option, which takes an optional argument. */
  lemma OptionalFirst(optstring: string, c: char)
    requires optstring == [c] + "::" && c != ':'
    ensures forall d :: ArgTypeOf(optstring, d) == if d == c then Some(Optional) else None
  {
    forall d
      ensures ArgTypeOf(optstring, d) == if d == c then Some(Optional) else None
    {
      assert optstring[1..] == "::";
      if d != c && d != ':' {
        assert "::" + "" == "::";
        SkipColons("::", "", d);
      }
    }
  }

  /** A meaning of the letters that tells the two parsers apart: the first letter that is not a colon is an option. */
  lemma {:induction false} Telling(mode: Mode, permute: bool, args: seq<string>, k: nat) returns (other: Mode)
    requires AreTexts(args) && k > 0 && !Unaffected(mode, permute, args, k)
    ensures Alike(mode, other)
    ensures Scan(other, permute, args, k).seen != Scan(other, permute, args, 0).seen
    decreases |args|
  {
    hide Alike, Scan, ScanLong, ScanCluster, OneLetter, TypeIn;
    if IsShortopt(args[0]) {
      assert IsText(args[0]);
      if args[0][1] != ':' {
        other := OneLetter(mode, args[0][1]);
        OneLetterIsAlike(mode, args[0][1]);
        TellingHere(other, permute, args, k);
      } else if k + 1 >= |args[0]| || args[0][k + 1] != ':' {
        other := OneLetter(mode, '\0');
        OneLetterIsAlike(mode, '\0');
        TellingHere(other, permute, args, k);
      } else {
        assert AreTexts(args[1..]);
        other := Telling(mode, permute, args[1..], k);
        ColonReading(mode, other, args, k);
        TellingOn(other, permute, args, k, 1);
      }
    } else if IsNonoption(mode, args[0]) {
      assert AreTexts(args[1..]);
      other := Telling(mode, permute, args[1..], k);
      TellingPast(mode, other, permute, args, k);
    } else {
      var n := LongSpan(mode, args);
      assert AreTexts(args[n..]);
      other := Telling(mode, permute, args[n..], k);
      AlikeLong(mode, other, args, k);
      TellingOn(other, permute, args, k, n);
    }
  }

  /** The first report at the offset is not the first report of the argument. */
  lemma TellingHere(mode: Mode, permute: bool, args: seq<string>, k: nat)
    requires args != [] && IsShortopt(args[0]) && IsText(args[0]) && k > 0
    requires k + 1 < |args[0]| && args[0][k + 1] != args[0][1] ==> TypeIn(mode, args[0][k + 1]) == None
    requires if args[0][1] != ':' then TypeIn(mode, args[0][1]) == Some(Optional)
             else TypeIn(mode, ':') == None && (k + 1 < |args[0]| ==> args[0][k + 1] != ':')
    ensures Scan(mode, permute, args, k).seen != Scan(mode, permute, args, 0).seen
  {
    hide TypeIn;
    var letters, more := args[0][1..], args[1..];
    var c0 := ScanCluster(mode, letters, 0, more);
    assert letters[0] == args[0][1] && (k < |letters| ==> letters[k] == args[0][k + 1]);
    if k <= |letters| {
      var c := ScanCluster(mode, letters, k, more);
      assert c.seen[0] != c0.seen[0] by {
        if k < |letters| && letters[0] != ':' {
          assert |letters[k + 1..]| < |letters[1..]|;
        }
      }
      hide ScanCluster;
      assert Scan(mode, permute, args, k).seen[0] == c.seen[0];
      assert Scan(mode, permute, args, 0).seen[0] == c0.seen[0];
    } else {
      assert Scan(mode, permute, args, k).seen == [] && Scan(mode, permute, args, 0).seen != [];
    }
  }

  /** An option read alike by both leaves it to the arguments behind it. */
  lemma TellingOn(mode: Mode, permute: bool, args: seq<string>, k: nat, n: nat)
    requires args != [] && !IsDashdash(args[0]) && !IsNonoption(mode, args[0]) && 1 <= n <= |args|
    requires IsShortopt(args[0]) ==> k + 1 <= |args[0]|
    requires var c, c0 := ScanOption(mode, args, k), ScanOption(mode, args, 0);
      && c.seen == c0.seen && c.offset == k && c0.offset == 0 && c.usesNext == c0.usesNext == (n == 2) && n <= 2
    requires Scan(mode, permute, args[n..], k).seen != Scan(mode, permute, args[n..], 0).seen
    ensures Scan(mode, permute, args, k).seen != Scan(mode, permute, args, 0).seen
  {
    var head, a, b := ScanOption(mode, args, 0).seen, Scan(mode, permute, args[n..], k).seen, Scan(mode, permute, args[n..], 0).seen;
    assert Scan(mode, permute, args, k).seen == head + a;
    assert Scan(mode, permute, args, 0).seen == head + b;
    assert (head + a)[|head|..] == a && (head + b)[|head|..] == b;
  }

  lemma TellingPast(mode: Mode, other: Mode, permute: bool, args: seq<string>, k: nat)
    requires Alike(mode, other) && permute && args != [] && IsNonoption(mode, args[0])
    requires Scan(other, permute, args[1..], k).seen != Scan(other, permute, args[1..], 0).seen
    ensures Scan(other, permute, args, k).seen != Scan(other, permute, args, 0).seen
  {
  }

  /** The first short option that calls from here on come to, past long options and their arguments. */
  function NextCluster(mode: Mode, permute: bool, args: seq<string>): Option<string> {
    if args == [] || IsDashdash(args[0]) then None
    else if IsShortopt(args[0]) then Some(args[0])
    else if IsNonoption(mode, args[0]) then
      if permute then NextCluster(mode, permute, args[1..]) else None
    else NextCluster(mode, permute, args[LongSpan(mode, args)..])
  }

  /**
   Calling on with an offset gets lost at the next short option if that has fewer letters than the offset, and is
   what a fresh parser does if there is none.
   */
  lemma {:induction false} OffsetGetsLost(mode: Mode, permute: bool, args: seq<string>, k: nat)
    requires mode.Long? ==> WellFormed(mode.table)
    requires AreTexts(args)
    ensures match NextCluster(mode, permute, args)
            case None => Iterate(mode, permute, args, k) == Iterate(mode, permute, args, 0) && !Iterate(mode, permute, args, k).Lost?
            case Some(first) => k > |first| - 1 ==> Iterate(mode, permute, args, k).Lost?
  {
    hide Iterate, Scan;
    IterateIsScan(mode, permute, args, k);
    IterateIsScan(mode, permute, args, 0);
    ScanGetsLost(mode, permute, args, k);
  }

  lemma {:induction false} ScanGetsLost(mode: Mode, permute: bool, args: seq<string>, k: nat)
    ensures match NextCluster(mode, permute, args)
            case None => Scan(mode, permute, args, k) == Scan(mode, permute, args, 0) && !Scan(mode, permute, args, k).Lost?
            case Some(first) => k > |first| - 1 ==> Scan(mode, permute, args, k).Lost?
    decreases |args|
  {
    if args != [] && !IsDashdash(args[0]) && !IsShortopt(args[0]) {
      if IsNonoption(mode, args[0]) {
        ScanGetsLost(mode, permute, args[1..], k);
      } else {
        var n := LongSpan(mode, args);
        var c, c0 := ScanOption(mode, args, k), ScanOption(mode, args, 0);
        assert c == c0.(offset := k) && c0.offset == 0 && (c.usesNext <==> n == 2);
        hide ScanOption, LongSpan;
        ScanGetsLost(mode, permute, args[n..], k);
      }
    }
  }

  /** The options of tinymix, which the following inputs are for. */
  const TINYMIX_OPTIONS := [LongOpt(Some("card"), 'D', Required), LongOpt(Some("version"), 'v', NoArg), LongOpt(Some("help"), 'h', NoArg)]

  /**
   A fresh parser does get there: after `-vx` the next call misses the `h` of `-h`, and after
   `-vvx` it would read beyond it.
   */
  lemma FreshParserFails()
    ensures Iterate(Long(TINYMIX_OPTIONS), true, ["-vx", "-h"], 0)
         == Parsed([Opt('v', None), Error(Invalid, 'x'), Error(Invalid, '\0')], ["-vx", "-h"], [])
    ensures Iterate(Long(TINYMIX_OPTIONS), true, ["-vvx", "-h"], 0)
         == Lost([Opt('v', None), Opt('v', None), Error(Invalid, 'x')])
  {
    var mode := Long(TINYMIX_OPTIONS);
    TinymixLetters();
    hide TypeIn, Iterate, Scan;
    TinymixClusters(mode);
    hide ScanCluster;
    IterateIsScan(mode, true, ["-vx", "-h"], 0);
    IterateIsScan(mode, true, ["-vvx", "-h"], 0);
    ScanOne(mode, "-vx", ["-h"], 0);
    ScanOne(mode, "-vvx", ["-h"], 0);
    ScanOne(mode, "-h", [], 1);
    ScanEnds(mode, "-h");
    assert ["-vx"] + ["-h"] == ["-vx", "-h"] && ["-vvx"] + ["-h"] == ["-vvx", "-h"] && ["-h"] + [] == ["-h"];
  }

  lemma ScanOne(mode: Mode, arg: string, rest: seq<string>, k: nat)
    requires IsShortopt(arg) && k + 1 <= |arg| && !ScanCluster(mode, arg[1..], k, rest).usesNext
    ensures var c := ScanCluster(mode, arg[1..], k, rest);
      Scan(mode, true, [arg] + rest, k) == After(c.seen, [arg], Scan(mode, true, rest, c.offset))
  {
    assert ([arg] + rest)[1..] == rest && ([arg] + rest)[..1] == [arg];
  }

  lemma ScanEnds(mode: Mode, arg: string)
    requires IsShortopt(arg) && |arg| == 2
    ensures Scan(mode, true, [], 1) == Parsed([], [], [])
    ensures Scan(mode, true, [arg], 2) == Lost([])
  {
  }

  lemma TinymixClusters(mode: Mode)
    requires TypeIn(mode, 'v') == Some(NoArg) && TypeIn(mode, 'x') == None
    ensures "-vx"[1..] == "vx" && "-vvx"[1..] == "vvx" && "-h"[1..] == "h"
    ensures ScanCluster(mode, "vx", 0, ["-h"]) == Reading([Opt('v', None), Error(Invalid, 'x')], false, 1)
    ensures ScanCluster(mode, "vvx", 0, ["-h"]) == Reading([Opt('v', None), Opt('v', None), Error(Invalid, 'x')], false, 2)
    ensures ScanCluster(mode, "h", 1, []) == Reading([Error(Invalid, '\0')], false, 1)
  {
    hide TypeIn;
    assert ScanCluster(mode, "vx", 1, ["-h"]) == Reading([Error(Invalid, 'x')], false, 1);
    assert ScanCluster(mode, "vvx", 2, ["-h"]) == Reading([Error(Invalid, 'x')], false, 2);
    assert ScanCluster(mode, "vvx", 1, ["-h"]) == Reading([Opt('v', None), Error(Invalid, 'x')], false, 2);
  }

  lemma TinymixLetters()
    ensures WellFormed(TINYMIX_OPTIONS)
    ensures TypeIn(Long(TINYMIX_OPTIONS), 'v') == Some(NoArg) && TypeIn(Long(TINYMIX_OPTIONS), 'x') == None
  {
    var t := TINYMIX_OPTIONS;
    assert t[1..][0] == t[1] && t[1..][1..] == [t[2]] && [t[2]][1..] == [];
  }

  // ---------------------------------------------------------------- permuting is a stable partition

  /** Which arguments the one-pass parser consumes: options, good or bad, their arguments, and "--". */
  function Consumed(mode: Mode, args: seq<string>, k: nat): (m: seq<bool>)
    requires !Scan(mode, true, args, k).Lost?
    ensures |m| == |args|
  {
    if args == [] then []
    else if IsDashdash(args[0]) then [true] + seq(|args| - 1, _ => false)
    else if IsNonoption(mode, args[0]) then [false] + Consumed(mode, args[1..], k)
    else
      var c := ScanOption(mode, args, k);
      if c.usesNext then [true, true] + Consumed(mode, args[2..], c.offset)
      else [true] + Consumed(mode, args[1..], c.offset)
  }

  /** The arguments marked `which`, in order. */
  function Select(args: seq<string>, m: seq<bool>, which: bool): seq<string>
    requires |m| == |args|
  {
    if args == [] then []
    else (if m[0] == which then [args[0]] else []) + Select(args[1..], m[1..], which)
  }

  lemma SelectFirst(arg: string, mark: bool, args: seq<string>, m: seq<bool>, which: bool)
    requires |m| == |args|
    ensures Select([arg] + args, [mark] + m, which) == (if mark == which then [arg] else []) + Select(args, m, which)
  {
    assert ([arg] + args)[1..] == args && ([mark] + m)[1..] == m;
  }

  lemma {:induction false} SelectAppend(a: seq<string>, ma: seq<bool>, b: seq<string>, mb: seq<bool>, which: bool)
    requires |a| == |ma| && |b| == |mb|
    ensures Select(a + b, ma + mb, which) == Select(a, ma, which) + Select(b, mb, which)
  {
    if a == [] {
      assert a + b == b && ma + mb == mb;
    } else {
      SelectAppend(a[1..], ma[1..], b, mb, which);
      SelectFirst(a[0], ma[0], a[1..] + b, ma[1..] + mb, which);
      assert a + b == [a[0]] + (a[1..] + b) && ma + mb == [ma[0]] + (ma[1..] + mb);
      var first := if ma[0] == which then [a[0]] else [];
      assert Select(a, ma, which) == first + Select(a[1..], ma[1..], which);
      assert first + (Select(a[1..], ma[1..], which) + Select(b, mb, which)) == Select(a, ma, which) + Select(b, mb, which);
    }
  }

  lemma {:induction false} SelectAll(args: seq<string>, m: seq<bool>, which: bool)
    requires |m| == |args| && forall i :: 0 <= i < |m| ==> m[i] == which
    ensures Select(args, m, which) == args && Select(args, m, !which) == []
  {
    if args != [] {
      SelectAll(args[1..], m[1..], which);
      assert args == [args[0]] + args[1..];
    }
  }

  /** How many arguments the scanner reads in one go, when it does not end. */
  function Stride(mode: Mode, args: seq<string>, k: nat): (n: nat)
    requires args != [] && !IsDashdash(args[0]) && !Scan(mode, true, args, k).Lost?
    ensures 1 <= n <= |args| && n <= 2
  {
    if !IsNonoption(mode, args[0]) && ScanOption(mode, args, k).usesNext then 2 else 1
  }

  function OffsetAfter(mode: Mode, args: seq<string>, k: nat): nat
    requires args != [] && !IsDashdash(args[0]) && !Scan(mode, true, args, k).Lost?
  {
    if IsNonoption(mode, args[0]) then k else ScanOption(mode, args, k).offset
  }

  /** One stride of the scanner: its arguments are all consumed, or are one operand. */
  lemma ConsumedStep(mode: Mode, args: seq<string>, k: nat)
    requires args != [] && !IsDashdash(args[0]) && !Scan(mode, true, args, k).Lost?
    ensures var n, k', m := Stride(mode, args, k), OffsetAfter(mode, args, k), Consumed(mode, args, k);
      && !Scan(mode, true, args[n..], k').Lost?
      && m[n..] == Consumed(mode, args[n..], k')
      && (forall j :: 0 <= j < n ==> m[j] == !IsNonoption(mode, args[0])) && (n == 2 ==> m[0])
      && (Scan(mode, true, args, k).Parsed? ==>
            var p, p' := Scan(mode, true, args, k), Scan(mode, true, args[n..], k');
            && p'.Parsed?
            && p.taken == (if m[0] then args[..n] else []) + p'.taken
            && p.operands == (if m[0] then [] else args[..n]) + p'.operands)
  {
    hide ScanOption;
  }

  /**
   The arguments are parted, each part in its original order: first the consumed ones, then the operands.
   Errors on the way make no difference.
   */
  lemma {:induction false} ScanParts(mode: Mode, args: seq<string>, k: nat)
    requires Scan(mode, true, args, k).Parsed?
    ensures var p := Scan(mode, true, args, k);
      && p.taken == Select(args, Consumed(mode, args, k), true)
      && p.operands == Select(args, Consumed(mode, args, k), false)
    decreases |args|
  {
    var m := Consumed(mode, args, k);
    if args == [] {
    } else if IsDashdash(args[0]) {
      SelectAll(args[1..], m[1..], false);
    } else {
      ConsumedStep(mode, args, k);
      var n, k' := Stride(mode, args, k), OffsetAfter(mode, args, k);
      hide Scan, Consumed, Stride, OffsetAfter, Select;
      ScanParts(mode, args[n..], k');
      SelectAll(args[..n], m[..n], m[0]);
      assert args == args[..n] + args[n..] && m == m[..n] + m[n..];
      SelectAppend(args[..n], m[..n], args[n..], m[n..], true);
      SelectAppend(args[..n], m[..n], args[n..], m[n..], false);
    }
  }

  lemma {:induction false} SelectKeepsAll(args: seq<string>, m: seq<bool>)
    requires |m| == |args|
    ensures multiset(Select(args, m, true)) + multiset(Select(args, m, false)) == multiset(args)
  {
    if args != [] {
      var rest, marks := args[1..], m[1..];
      SelectKeepsAll(rest, marks);
      assert args == [args[0]] + rest && m == [m[0]] + marks;
      SelectFirst(args[0], m[0], rest, marks, true);
      SelectFirst(args[0], m[0], rest, marks, false);
      hide Select;
      Parted(args[0], m[0], Select(rest, marks, true), Select(rest, marks, false), rest);
    }
  }

  lemma Parted(first: string, mark: bool, taken: seq<string>, left: seq<string>, rest: seq<string>)
    requires multiset(taken) + multiset(left) == multiset(rest)
    ensures multiset((if mark then [first] else []) + taken) + multiset((if mark then [] else [first]) + left)
         == multiset([first] + rest)
  {
    if mark {
      assert [] + left == left;
    } else {
      assert [] + taken == taken;
    }
  }

  lemma DashdashIsConsumed(mode: Mode, args: seq<string>, k: nat)
    requires args != [] && IsDashdash(args[0]) && !Scan(mode, true, args, k).Lost?
    ensures Consumed(mode, args, k)[0]
  {
  }

  /** What is left as an operand is a non-option, unless a consumed "--" came before it. */
  lemma {:induction false} OperandsAreNonoptions(mode: Mode, args: seq<string>, k: nat, i: nat)
    requires Scan(mode, true, args, k).Parsed? && i < |args| && !Consumed(mode, args, k)[i]
    ensures IsNonoption(mode, args[i]) || exists j :: 0 <= j < i && IsDashdash(args[j]) && Consumed(mode, args, k)[j]
    decreases |args|
  {
    hide *;
    var m := Consumed(mode, args, k);
    if IsDashdash(args[0]) {
      DashdashIsConsumed(mode, args, k);
      assert m[0];
    } else {
      ConsumedStep(mode, args, k);
      var n, k' := Stride(mode, args, k), OffsetAfter(mode, args, k);
      if i >= n {
        assert m[n..][i - n] == m[i] && args[n..][i - n] == args[i];
        OperandsAreNonoptions(mode, args[n..], k', i - n);
        if !IsNonoption(mode, args[i]) {
          var j :| 0 <= j < i - n && IsDashdash(args[n..][j]) && Consumed(mode, args[n..], k')[j];
          assert m[n..][j] == m[j + n] && IsDashdash(args[j + n]) && m[j + n];
        }
      } else {
        assert m[i] == m[0];
      }
    }
  }
}
