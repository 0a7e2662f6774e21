/**
 The option parser of `utils/optparse.h`: recursive over non-options, moving
 them behind the options in place. Each method is proved against `OptionSpec`.
 The NULL that ends `argv` is index `argv.Length`.
 */
module OptionParser {
  import opened Wrappers
  import opened OptionSpec

  /** `optparse_argtype`: a scan for the letter, then its colons. */
  method ArgTypeScan(optstring: string, c: char) returns (t: Option<ArgType>)
    ensures t == ArgTypeOf(optstring, c)
  {
    if c == ':' {
      return None;
    }
    var i := 0;
    while i < |optstring| && c != optstring[i]
      invariant 0 <= i <= |optstring|
      invariant ArgTypeOf(optstring, c) == ArgTypeOf(optstring[i..], c)
    {
      assert optstring[i..][1..] == optstring[i + 1..];
      i := i + 1;
    }
    if i == |optstring| {
      return None;
    }
    assert optstring[i..][1..] == optstring[i + 1..];
    t := Some(NoArg);
    if i + 1 < |optstring| && optstring[i + 1] == ':' {
      t := Some(if i + 2 < |optstring| && optstring[i + 2] == ':' then Optional else Required);
    }
  }

  /** The inner loop of `optparse_from_long`. */
  method AppendColons(optstring: string, t: ArgType) returns (longer: string)
    ensures longer == optstring + Colons(t)
  {
    longer := optstring;
    var colons := match t case NoArg => 0 case Required => 1 case Optional => 2;
    for a := 0 to colons
      invariant longer == optstring + Colons(t)[..a]
    {
      longer := longer + ":";
    }
  }

  /** What one entry contributes to the option string. */
  function Entry(e: LongOpt): string {
    if e.shortname != '\0' then [e.shortname] + Colons(e.argtype) else ""
  }

  lemma FromLongAt(table: seq<LongOpt>, i: nat)
    requires i < |table|
    ensures FromLong(table[i..]) == Entry(table[i]) + FromLong(table[i + 1..])
  {
    assert table[i..][1..] == table[i + 1..];
  }

  /** `optparse_from_long`: letters and colons appended to the buffer. */
  method BuildOptString(table: seq<LongOpt>) returns (optstring: string)
    ensures optstring == FromLong(table)
  {
    hide FromLong;
    optstring := "";
    assert table[0..] == table;
    for i := 0 to |table|
      invariant FromLong(table) == optstring + FromLong(table[i..])
    {
      FromLongAt(table, i);
      ghost var before := optstring;
      if table[i].shortname != '\0' {
        optstring := AppendColons(optstring + [table[i].shortname], table[i].argtype);
      }
      assert optstring == before + Entry(table[i]);
    }
    EndOfTable(table);
  }

  lemma EndOfTable(table: seq<LongOpt>)
    ensures FromLong(table[|table|..]) == ""
  {
  }

  /** `optparse_longopts_match`: compares up to the end or an '='. */
  method LongoptsMatch(longname: string, option: string) returns (match_: bool)
    ensures match_ == (longname == NamePart(option))
  {
    var i := 0;
    assert longname[..0] == "";
    while i < |option| && i < |longname| && option[i] != '='
      invariant 0 <= i <= |option| && i <= |longname|
      invariant NamePart(option) == longname[..i] + NamePart(option[i..])
    {
      if option[i] != longname[i] {
        assert NamePart(option[i..])[0] == option[i];
        assert NamePart(option)[i] == option[i];
        return false;
      }
      assert option[i..][1..] == option[i + 1..];
      assert longname[..i + 1] == longname[..i] + [longname[i]];
      i := i + 1;
    }
    assert longname[..|longname|] == longname;
    match_ := i == |longname| && (i == |option| || option[i] == '=');
    if i < |longname| {
      assert NamePart(option[i..]) == "";
    } else if !match_ {
      assert NamePart(option[i..]) != "";
    }
  }

  /** `optparse_longopts_arg`. */
  method LongoptsArg(option: string) returns (value: Option<string>)
    ensures value == ValuePart(option)
  {
    var i := 0;
    while i < |option| && option[i] != '='
      invariant 0 <= i <= |option|
      invariant ValuePart(option) == ValuePart(option[i..])
    {
      assert option[i..][1..] == option[i + 1..];
      i := i + 1;
    }
    if i < |option| {
      assert option[i..][1..] == option[i + 1..];
      return Some(option[i + 1..]);
    }
    return None;
  }

  class Optparse {
    const argv: array<string>
    var permute: bool
    var optind: nat
    var optopt: char
    var optarg: Option<string>
    var subopt: nat

    /** `optparse_init`, apart from the start index: a client may skip what it has read itself. */
    constructor (argv: array<string>)
      ensures this.argv == argv && permute && optind == 1 && subopt == 0
    {
      this.argv := argv;
      permute, optind, subopt, optarg, optopt := true, 1, 0, None, '\0';
    }

    /** What one call of the specification leaves of the parser and of argv. */
    ghost predicate Follows(s: Step, before: seq<string>, index: nat)
      reads `optind, `subopt, argv
    {
      && index <= |before| == argv.Length
      && optind == index + |s.taken| <= argv.Length
      && argv[..] == before[..index] + s.taken + s.rest
      && subopt == s.subopt
    }

    /** What the caller is told, as the return value and the fields say it. */
    ghost predicate Tells(s: Step, r: Seen)
      reads `optopt, `optarg
    {
      && r == s.seen
      && (r.Opt? ==> optarg == r.optarg && optopt == r.code)
      && (r.Error? ==> optarg == None && optopt == r.optopt)
    }

    /** `optparse_permute`: the argument at `index` moves behind those up to `optind`. */
    method Permute(index: nat)
      requires index < optind <= argv.Length
      modifies argv
      ensures argv[..] == old(argv[..index]) + old(argv[index + 1..optind]) + [old(argv[index])] + old(argv[optind..])
    {
      var nonoption := argv[index];
      var i := index;
      while i < optind - 1
        invariant index <= i <= optind - 1
        invariant argv[..index] == old(argv[..index]) && argv[optind..] == old(argv[optind..])
        invariant forall k :: index <= k < i ==> argv[k] == old(argv[k + 1])
        invariant forall k :: i <= k < optind ==> argv[k] == old(argv[k])
      {
        argv[i] := argv[i + 1];
        i := i + 1;
      }
      argv[optind - 1] := nonoption;
      Moved(old(argv[..]), argv[..], index, optind);
    }

    /** What the loop of `optparse_permute` leaves, element by element, is one argument moved. */
    static lemma Moved(before: seq<string>, after: seq<string>, index: nat, end: nat)
      requires index < end <= |before| == |after|
      requires after[..index] == before[..index] && after[end..] == before[end..]
      requires forall k :: index <= k < end - 1 ==> after[k] == before[k + 1]
      requires after[end - 1] == before[index]
      ensures after == before[..index] + before[index + 1..end] + [before[index]] + before[end..]
    {
      assert after[index..end - 1] == before[index + 1..end];
      assert after == after[..index] + after[index..end - 1] + [after[end - 1]] + after[end..];
    }

    /** A non-option is put back behind what the inner call consumed. */
    lemma PutBack(before: seq<string>, inner: seq<string>, after: seq<string>, index: nat, s: Step)
      requires index < |before| && inner == before[..index + 1] + s.taken + s.rest
      requires |s.taken| + |s.rest| == |before| - index - 1
      requires var split := index + 1 + |s.taken|;
        after == inner[..index] + inner[index + 1..split] + [inner[index]] + inner[split..]
      ensures after == before[..index] + s.taken + (before[index..][..1] + s.rest)
    {
      var split := index + 1 + |s.taken|;
      assert inner[..index] == before[..index];
      assert inner[index + 1..split] == s.taken;
      assert inner[index] == before[index];
      assert inner[split..] == s.rest;
      assert before[index..][..1] == [before[index]];
    }

    /** The end of the recursive case: the skipped non-option goes behind what the inner call consumed. */
    method Unskip(index: nat, ghost before: seq<string>, ghost s: Step)
      requires index < |before| && |s.taken| + |s.rest| == |before| - index - 1
      requires Follows(s, before, index + 1)
      modifies argv, `optind
      ensures Follows(s.(rest := before[index..][..1] + s.rest), before, index)
    {
      ghost var inner := argv[..];
      Permute(index);
      PutBack(before, inner, argv[..], index, s);
      optind := optind - 1;
    }

    lemma SplitRest(all: seq<string>, index: nat)
      requires index < |all|
      ensures all == all[..index] + [] + all[index..]
      ensures all == all[..index] + all[index..][..1] + all[index..][1..]
      ensures |all[index..]| > 1 ==> all == all[..index] + all[index..][..2] + all[index..][2..]
    {
    }

    static lemma DashdashIsNoShortopt(arg: string)
      requires IsDashdash(arg)
      ensures !IsShortopt(arg)
    {
    }

    /** A call that moves nothing in argv. */
    lemma Stands(s: Step, before: seq<string>, index: nat)
      requires argv[..] == before && index <= optind <= argv.Length && subopt == s.subopt
      requires s.taken == before[index..optind] && s.rest == before[optind..]
      ensures Follows(s, before, index)
    {
    }

    /** `optparse` on the argument at `optind`, when it is a short option: the switch. */
    method ShortOption(optstring: string, ghost mode: Mode) returns (r: Seen)
      requires optind < argv.Length && IsShortopt(argv[optind]) && subopt + 1 <= |argv[optind]|
      requires IsText(optstring)
      requires forall c :: LetterType(mode, c) == ArgTypeOf(optstring, c)
      modifies this
      ensures var s := ShortStep(mode, old(argv[optind..]), old(subopt));
        Follows(s, old(argv[..]), old(optind)) && Tells(s, r) && permute == old(permute)
      ensures !r.Done?
    {
      SplitRest(argv[..], optind);
      optopt, optarg := '\0', None;
      var option := argv[optind];
      var k := subopt + 1;
      optopt := if k < |option| then option[k] else '\0';
      var type_ := ArgTypeScan(optstring, optopt);
      NulHasNoType(optstring);
      if type_ == None {
        optind := optind + 1;
        return Error(Invalid, optopt);
      } else if type_ == Some(NoArg) {
        if k + 1 < |option| {
          subopt := subopt + 1;
        } else {
          subopt, optind := 0, optind + 1;
        }
        return Opt(optopt, optarg);
      } else if type_ == Some(Required) {
        var next := optind + 1;
        subopt, optind := 0, optind + 1;
        if k + 1 < |option| {
          optarg := Some(option[k + 1..]);
        } else if next < argv.Length {
          optarg := Some(argv[next]);
          optind := optind + 1;
        } else {
          optarg := None;
          return Error(Missing, optopt);
        }
        return Opt(optopt, optarg);
      } else {
        subopt, optind := 0, optind + 1;
        optarg := if k + 1 < |option| then Some(option[k + 1..]) else None;
        return Opt(optopt, optarg);
      }
    }

    /** `optparse`. */
    method Optparse(optstring: string, ghost mode: Mode) returns (r: Seen)
      requires optind <= argv.Length && Ready(mode, permute, argv[optind..], subopt)
      requires IsText(optstring) && forall c :: LetterType(mode, c) == ArgTypeOf(optstring, c)
      requires mode.Short? || (optind < argv.Length && IsShortopt(argv[optind]))
      modifies this, argv
      ensures permute == old(permute) && Ready(mode, permute, old(argv[optind..]), old(subopt))
      ensures var s := Next(mode, permute, old(argv[optind..]), old(subopt));
        Follows(s, old(argv[..]), old(optind)) && Tells(s, r)
      ensures r.Done? ==> optopt == '\0' && optarg == None
      ensures old(optind) < argv.Length && IsShortopt(old(argv[optind..])[0]) ==> !r.Done?
      decreases argv.Length - optind
    {
      hide ShortStep, ArgTypeOf, LetterType, IsText, Next, Ready, FirstShort, Follows, IsShortopt, IsDashdash, IsLongopt;
      ghost var before, at := argv[..], optind;
      ghost var rest, s := before[at..], Next(mode, permute, before[at..], subopt);
      NextCases(mode, permute, rest, subopt);
      optopt, optarg := '\0', None;
      if optind == argv.Length {
        Stands(s, before, at);
        return Done;
      }
      var option := argv[optind];
      assert rest[0] == option;
      if IsDashdash(option) {
        DashdashIsNoShortopt(option);
        optind := optind + 1;
        Stands(s, before, at);
        return Done;
      }
      if !IsShortopt(option) {
        if permute {
          var index := optind;
          optind := optind + 1;
          assert rest[1..] == argv[optind..];
          r := Optparse(optstring, mode);
          Unskip(index, before, Next(mode, permute, rest[1..], old(subopt)));
          return;
        }
        Stands(s, before, at);
        return Done;
      }
      r := ShortOption(optstring, mode);
    }

    /** `optparse_long` on the argument at `optind`, when it is a long option. */
    method LongOption(table: seq<LongOpt>) returns (r: Seen)
      requires optind < argv.Length && IsLongopt(argv[optind])
      modifies this
      ensures permute == old(permute)
      ensures var s := LongStep(table, old(argv[optind..]), old(subopt));
        Follows(s, old(argv[..]), old(optind)) && Tells(s, r)
      ensures !r.Done?
    {
      SplitRest(argv[..], optind);
      optopt, optarg := '\0', None;
      var option := argv[optind][2..];
      optind := optind + 1;
      var found := LookUp(table, option);
      if found == None {
        return Error(Invalid, '\0');
      }
      var e := found.value;
      optopt := e.shortname;
      var value := LongoptsArg(option);
      if e.argtype == NoArg && value != None {
        return Error(TooMany, optopt);
      }
      if value != None {
        optarg := value;
      } else if e.argtype == Required {
        if optind == argv.Length {
          optarg := None;
          return Error(Missing, optopt);
        }
        optarg := Some(argv[optind]);
        optind := optind + 1;
      }
      return Opt(optopt, optarg);
    }

    /** The search of `optparse_long` through the table. */
    static method LookUp(table: seq<LongOpt>, option: string) returns (found: Option<LongOpt>)
      ensures found == FindLong(table, NamePart(option))
    {
      hide NamePart;
      var i := 0;
      while i < |table|
        invariant 0 <= i <= |table|
        invariant FindLong(table, NamePart(option)) == FindLong(table[i..], NamePart(option))
      {
        assert table[i..][1..] == table[i + 1..];
        if table[i].longname.Some? {
          var match_ := LongoptsMatch(table[i].longname.value, option);
          if match_ {
            return Some(table[i]);
          }
        }
        i := i + 1;
      }
      return None;
    }

    /** `optparse_long`. */
    method OptparseLong(table: seq<LongOpt>) returns (r: Seen)
      requires optind <= argv.Length && Ready(Long(table), permute, argv[optind..], subopt)
      modifies this, argv
      ensures permute == old(permute) && Ready(Long(table), permute, old(argv[optind..]), old(subopt))
      ensures var s := Next(Long(table), permute, old(argv[optind..]), old(subopt));
        Follows(s, old(argv[..]), old(optind)) && Tells(s, r)
      ensures r.Done? ==> optopt == old(optopt) && optarg == old(optarg)
      decreases argv.Length - optind
    {
      hide ShortStep, LongStep, ArgTypeOf, FromLong, IsText, Next, Ready, FirstShort, Follows, IsShortopt, IsDashdash, IsLongopt;
      ghost var before, at := argv[..], optind;
      ghost var rest, s := before[at..], Next(Long(table), permute, before[at..], subopt);
      NextCases(Long(table), permute, rest, subopt);
      if optind == argv.Length {
        Stands(s, before, at);
        return Done;
      }
      var option := argv[optind];
      assert rest[0] == option;
      if IsDashdash(option) {
        optind := optind + 1;
        Stands(s, before, at);
        return Done;
      } else if IsShortopt(option) {
        var optstring := BuildOptString(table);
        FromLongIsText(table);
        r := Optparse(optstring, Long(table));
        return;
      } else if !IsLongopt(option) {
        if permute {
          var index := optind;
          optind := optind + 1;
          assert rest[1..] == argv[optind..];
          r := OptparseLong(table);
          Unskip(index, before, Next(Long(table), permute, rest[1..], old(subopt)));
          return;
        }
        Stands(s, before, at);
        return Done;
      }
      r := LongOption(table);
    }

    /**
     The loop of a client, `while ((c = optparse_long(...)) != -1)`, that carries on after a '?'; one that
     does not sees the reports up to the first error. At the end argv is permuted as the one-pass parser
     parts it and `optind` is at the split. A parser that is `lost` would next read beyond an argument.
     */
    method ParseAll(table: seq<LongOpt>) returns (seen: seq<Seen>, lost: bool)
      requires optind <= argv.Length
      requires WellFormed(table) && AreTexts(argv[optind..])
      modifies this, argv
      ensures permute == old(permute)
      ensures match Scan(Long(table), permute, old(argv[optind..]), old(subopt))
        case Parsed(o, t, operands) =>
          && seen == o && !lost
          && argv[..] == old(argv[..optind]) + t + operands && optind == old(optind) + |t|
        case Lost(o) => seen == o && lost
    {
      hide Next, Ready, LettersLeft, Iterate, After, Scan;
      ghost var mode, before, start := Long(table), argv[..], optind;
      ghost var taken: seq<string> := [];
      seen := [];
      AtStart(Iterate(mode, permute, before[start..], subopt));
      IterateIsScan(mode, permute, before[start..], subopt);
      while Inside(table)
        invariant optind <= argv.Length && permute == old(permute)
        invariant argv[..optind] == before[..start] + taken
        invariant Scan(mode, permute, before[start..], old(subopt)) == After(seen, taken, Iterate(mode, permute, argv[optind..], subopt))
        decreases |argv[optind..]|, LettersLeft(mode, permute, argv[optind..], subopt)
      {
        ghost var rest, offset, done := argv[optind..], subopt, argv[..optind];
        var r := OptparseLong(table);
        ghost var s := Next(mode, permute, rest, offset);
        IterateUnfolds(mode, permute, rest, offset);
        Followed(done + rest, |done|, s);
        if r.Done? {
          AtEnd(seen, taken, s);
          return seen, false;
        }
        NextProgress(mode, permute, rest, offset);
        AfterAfter(seen, taken, [s.seen], s.taken, Iterate(mode, permute, s.rest, s.subopt));
        seen, taken := seen + [r], taken + s.taken;
      }
      LostHere(mode, permute, argv[optind..], subopt, seen, taken);
      lost := true;
    }

    /** Is the next call within the bounds of the argument it comes to? C has no such check. */
    predicate Inside(table: seq<LongOpt>)
      requires optind <= argv.Length
      reads this, argv
    {
      Ready(Long(table), permute, argv[optind..], subopt)
    }

    /** Where the parser stands after a call. */
    lemma Followed(before: seq<string>, index: nat, s: Step)
      requires Follows(s, before, index)
      ensures optind <= argv.Length && subopt == s.subopt
      ensures argv[..optind] == before[..index] + s.taken && argv[optind..] == s.rest
      ensures argv[..] == argv[..optind] + argv[optind..]
    {
    }

    static lemma AtStart(p: Parse)
      ensures After([], [], p) == p
    {
    }

    static lemma AtEnd(seen: seq<Seen>, taken: seq<string>, s: Step)
      ensures After(seen, taken, Parsed([], s.taken, s.rest)) == Parsed(seen, taken + s.taken, s.rest)
    {
    }

    static lemma LostHere(mode: Mode, permute: bool, rest: seq<string>, subopt: nat, seen: seq<Seen>, taken: seq<string>)
      requires !Ready(mode, permute, rest, subopt)
      ensures After(seen, taken, Iterate(mode, permute, rest, subopt)) == Lost(seen)
    {
      assert Iterate(mode, permute, rest, subopt) == Lost([]);
    }
  }
}
