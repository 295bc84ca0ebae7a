/** What getopt reports, defined by one scan of the arguments from left to right that moves
    nothing. */
module OptionSpec {

  datatype Option<T> = None | Some(value: T)

  /** struct option; `flag` 0 is a null pointer, `hasArg` is 0, 1 (required) or 2 (optional). */
  datatype LongOpt = LongOpt(name: string, hasArg: nat, flag: nat, val: int)

  datatype Ordering = RequireOrder | Permute | ReturnInOrder

  /** `optstring` is without its leading '-' or '+'. */
  datatype Config = Config(optstring: string, longopts: Option<seq<LongOpt>>, longOnly: bool, ordering: Ordering)

  /** One option as reported: the value returned, optarg, a new optopt, the index stored
      through longind and the flag stored, if any. `taken` elements are used up by it, none
      if the element goes on with the characters `rest`. */
  datatype Parsed = Parsed(
    code: int, optarg: Option<string>, optopt: Option<int>, index: Option<nat>, stored: Option<(nat, int)>,
    taken: nat, rest: string)

  const QUESTION := '?' as int
  const COLON := ':' as int

  /** strchr, as an index. */
  function IndexOf(s: string, c: char): (i: nat)
    ensures i <= |s| && (i < |s| ==> s[i] == c) && forall j | 0 <= j < i :: s[j] != c
  {
    if s == "" || s[0] == c then 0 else 1 + IndexOf(s[1..], c)
  }

  /** s[i] == c, where the terminator is no character. */
  predicate CharAt(s: string, i: nat, c: char) { i < |s| && s[i] == c }

  /** What is returned for a missing argument. */
  function Missing(cfg: Config): int { if CharAt(cfg.optstring, 0, ':') then COLON else QUESTION }

  // ----- Looking up a long option -----

  predicate Abbreviates(key: string, o: LongOpt) { |key| <= |o.name| && o.name[..|key|] == key }

  /** The first option from `i` on whose name is exactly `key`. */
  function FirstExact(opts: seq<LongOpt>, key: string, i: nat): (k: nat)
    requires i <= |opts|
    ensures i <= k <= |opts| && (k < |opts| ==> opts[k].name == key)
    ensures forall j | i <= j < k :: opts[j].name != key
    decreases |opts| - i
  {
    if i == |opts| || opts[i].name == key then i else FirstExact(opts, key, i + 1)
  }

  function FirstAbbreviated(opts: seq<LongOpt>, key: string, i: nat): (k: nat)
    requires i <= |opts|
    ensures i <= k <= |opts| && (k < |opts| ==> Abbreviates(key, opts[k]))
    ensures forall j | i <= j < k :: !Abbreviates(key, opts[j])
    decreases |opts| - i
  {
    if i == |opts| || Abbreviates(key, opts[i]) then i else FirstAbbreviated(opts, key, i + 1)
  }

  predicate Differ(o: LongOpt, p: LongOpt) { o.hasArg != p.hasArg || o.flag != p.flag || o.val != p.val }

  /** A later candidate that does not mean the same. */
  ghost predicate Rivals(opts: seq<LongOpt>, key: string, k: nat, longOnly: bool)
    requires k < |opts|
  {
    exists j | k < j < |opts| :: Abbreviates(key, opts[j]) && (longOnly || Differ(opts[k], opts[j]))
  }

  datatype Lookup = Match(i: nat) | Ambiguous | NoMatch

  /** An exact match wins; otherwise the abbreviation must mean one thing only. */
  ghost function LookupOf(opts: seq<LongOpt>, key: string, longOnly: bool): Lookup {
    var e, a := FirstExact(opts, key, 0), FirstAbbreviated(opts, key, 0);
    if e < |opts| then Match(e)
    else if a == |opts| then NoMatch
    else if Rivals(opts, key, a, longOnly) then Ambiguous
    else Match(a)
  }

  datatype LongResult = NotLong | Long(p: Parsed)

  /** The long option spelled by `text`, which ends the element `tail[0]`. */
  ghost function LongStep(cfg: Config, opts: seq<LongOpt>, text: string, tail: seq<string>, longOnly: bool): LongResult
    requires |tail| > 0
  {
    var end := IndexOf(text, '=');
    match LookupOf(opts, text[..end], longOnly)
    case Ambiguous => Long(Parsed(QUESTION, None, Some(0), None, None, 1, ""))
    case NoMatch =>
      if !longOnly || CharAt(tail[0], 1, '-') || (|text| > 0 && IndexOf(cfg.optstring, text[0]) == |cfg.optstring|)
      then Long(Parsed(QUESTION, None, Some(0), None, None, 1, "")) else NotLong
    case Match(i) =>
      if i >= |opts| then NotLong else Long(MatchStep(cfg, opts[i], i, text[end..], tail))
  }

  /** The long option `o` has been found; `rest` is what follows its name: "" or "=" and an
      argument. */
  ghost function MatchStep(cfg: Config, o: LongOpt, i: nat, rest: string, tail: seq<string>): Parsed
    requires |tail| > 0
  {
    if rest != "" && o.hasArg == 0 then Parsed(QUESTION, None, Some(o.val), None, None, 1, "")
    else if rest == "" && o.hasArg == 1 && |tail| == 1 then Parsed(Missing(cfg), None, Some(o.val), None, None, 1, "")
    else
      var takesNext := rest == "" && o.hasArg == 1;
      var arg := if takesNext then Some(tail[1]) else if rest != "" then Some(rest[1..]) else None;
      var stored := if o.flag != 0 then Some((o.flag, o.val)) else None;
      Parsed(if o.flag != 0 then 0 else o.val, arg, None, Some(i), stored, if takesNext then 2 else 1, "")
  }

  lemma LongStepTaken(cfg: Config, opts: seq<LongOpt>, text: string, tail: seq<string>, longOnly: bool)
    requires |tail| > 0
    ensures var l := LongStep(cfg, opts, text, tail, longOnly);
      && (l.Long? ==> 1 <= l.p.taken <= |tail| && l.p.rest == "")
      && (l.NotLong? ==> longOnly && !CharAt(tail[0], 1, '-'))
  {
  }

  /** The option is taken and its own value -1 is returned. */
  ghost predicate ReturnsMinusOne(opts: seq<LongOpt>, text: string, tail: seq<string>, longOnly: bool) {
    var end := IndexOf(text, '=');
    var found := LookupOf(opts, text[..end], longOnly);
    && found.Match? && found.i < |opts|
    && var o := opts[found.i];
       && o.flag == 0 && o.val == -1
       && if end < |text| then o.hasArg != 0 else o.hasArg == 1 ==> |tail| > 1
  }

  lemma LongMinusOne(cfg: Config, opts: seq<LongOpt>, text: string, tail: seq<string>, longOnly: bool)
    requires |tail| > 0
    ensures var l := LongStep(cfg, opts, text, tail, longOnly);
      && (l.Long? && l.p.code == -1 <==> ReturnsMinusOne(opts, text, tail, longOnly))
      && (l.Long? && l.p.code == -1 ==> l.p.optopt.None? && l.p.stored.None?)
  {
  }

  // ----- One option character -----

  /** The option characters `chars` are what is left of the element `tail[0]`; `arg` is what
      optarg is so far. */
  ghost function ShortStep(cfg: Config, chars: string, tail: seq<string>, arg: Option<string>): Parsed
    requires chars != "" && |tail| > 0
  {
    var c, rest := chars[0], chars[1..];
    var at := IndexOf(cfg.optstring, c);
    var done := if rest == "" then 1 else 0;
    if at == |cfg.optstring| || c == ':' || c == ';' then Parsed(QUESTION, arg, Some(c as int), None, None, done, rest)
    else if c == 'W' && CharAt(cfg.optstring, at + 1, ';') && cfg.longopts.Some? then
      if rest != "" then OfLong(LongStep(cfg, cfg.longopts.value, rest, tail, false), 0)
      else if |tail| == 1 then Parsed(Missing(cfg), arg, Some(c as int), None, None, 1, "")
      else OfLong(LongStep(cfg, cfg.longopts.value, tail[1], tail[1..], false), 1)
    else if !CharAt(cfg.optstring, at + 1, ':') then Parsed(c as int, arg, None, None, None, done, rest)
    else if rest != "" then Parsed(c as int, Some(rest), None, None, None, 1, "")
    else if CharAt(cfg.optstring, at + 2, ':') then Parsed(c as int, None, None, None, None, 1, "")
    else if |tail| == 1 then Parsed(Missing(cfg), arg, Some(c as int), None, None, 1, "")
    else Parsed(c as int, Some(tail[1]), None, None, None, 2, "")
  }

  ghost function OfLong(l: LongResult, before: nat): Parsed {
    match l
    case Long(p) => p.(taken := before + p.taken)
    case NotLong => Parsed(QUESTION, None, None, None, None, before + 1, "")
  }

  // ----- A whole element -----

  /** The inverse of NONOPTION_P. */
  predicate IsOption(s: string) { |s| > 1 && s[0] == '-' }

  /** The option element `tail[0]`, other than "--": a long option or the first of its
      option characters. If with long_only a long option returns -1, it has been taken, and
      the characters of the element after it, but for the first, are looked at instead. */
  ghost function OptionStep(cfg: Config, tail: seq<string>): Parsed
    requires |tail| > 0 && IsOption(tail[0]) && !Undefined(cfg, tail)
  {
    var e := tail[0];
    if cfg.longopts.Some? && e[1] == '-' then OfLong(LongStep(cfg, cfg.longopts.value, e[2..], tail, cfg.longOnly), 0)
    else if TriesLong(cfg, e) then
      var l := LongStep(cfg, cfg.longopts.value, e[1..], tail, true);
      if l.NotLong? then ShortStep(cfg, e[1..], tail, None)
      else if l.p.code != -1 then l.p
      else Onward(l.p, ShortStep(cfg, tail[l.p.taken][1..], tail[l.p.taken..], l.p.optarg))
    else ShortStep(cfg, e[1..], tail, None)
  }

  /** With long_only, "-f" alone stays a short option if there is one. */
  predicate TriesLong(cfg: Config, e: string)
    requires IsOption(e)
  {
    cfg.longopts.Some? && e[1] != '-' && cfg.longOnly && (|e| > 2 || IndexOf(cfg.optstring, e[1]) == |cfg.optstring|)
  }

  /** A long option has been taken, and then `q`. */
  function Onward(l: Parsed, q: Parsed): Parsed {
    q.(index := if q.index.Some? then q.index else l.index, taken := l.taken + q.taken)
  }

  /** With long_only a long option returns -1, and the element after it is missing or ends
      before its second character: getopt would read past the end of argv or of the element. */
  ghost predicate Undefined(cfg: Config, tail: seq<string>)
    requires |tail| > 0 && IsOption(tail[0])
  {
    && TriesLong(cfg, tail[0])
    && var l := LongStep(cfg, cfg.longopts.value, tail[0][1..], tail, true);
       l.Long? && l.p.code == -1 && (l.p.taken >= |tail| || |tail[l.p.taken]| < 2)
  }

  lemma ShortStepTaken(cfg: Config, chars: string, tail: seq<string>, arg: Option<string>)
    requires chars != "" && |tail| > 0
    ensures var p := ShortStep(cfg, chars, tail, arg);
      && p.taken <= |tail| && (p.taken == 0 ==> p.rest == chars[1..] && p.rest != "") && (p.taken > 0 ==> p.rest == "")
  {
    if cfg.longopts.Some? {
      LongStepTaken(cfg, cfg.longopts.value, chars[1..], tail, false);
      if |tail| > 1 { LongStepTaken(cfg, cfg.longopts.value, tail[1], tail[1..], false); }
    }
    hide LongStep;
  }

  lemma OptionStepTaken(cfg: Config, tail: seq<string>)
    requires |tail| > 0 && IsOption(tail[0]) && !Undefined(cfg, tail)
    ensures var p := OptionStep(cfg, tail);
      && p.taken <= |tail| && (p.rest == "" ==> p.taken > 0)
      && (p.rest != "" ==> p.taken < |tail| && |p.rest| < |tail[p.taken]|)
  {
    var e := tail[0];
    ShortStepTaken(cfg, e[1..], tail, None);
    if cfg.longopts.Some? {
      LongStepTaken(cfg, cfg.longopts.value, e[2..], tail, cfg.longOnly);
      LongStepTaken(cfg, cfg.longopts.value, e[1..], tail, true);
      var l := LongStep(cfg, cfg.longopts.value, e[1..], tail, true);
      if TriesLong(cfg, e) && l.Long? && l.p.code == -1 {
        ShortStepTaken(cfg, tail[l.p.taken][1..], tail[l.p.taken..], l.p.optarg);
      }
    }
    hide LongStep, ShortStep;
  }

  // ----- All the arguments -----

  /** Characters and elements. */
  ghost function Chars(tail: seq<string>): nat { if tail == [] then 0 else |tail[0]| + 1 + Chars(tail[1..]) }

  lemma {:induction false} CharsDrop(tail: seq<string>, k: nat)
    requires k <= |tail|
    ensures Chars(tail[k..]) <= Chars(tail) && (k > 0 ==> Chars(tail[k..]) <= Chars(tail[1..]))
    decreases k
  {
    if k > 0 {
      CharsDrop(tail[1..], k - 1);
      assert tail[1..][k - 1..] == tail[k..];
    }
  }

  /** What is left to scan: the characters `chars` of the element `tail[0]`, or from
      `tail[0]` on if there are none. */
  ghost function Left(chars: string, tail: seq<string>): nat {
    if chars != "" && tail != [] then |chars| + Chars(tail[1..]) else Chars(tail)
  }

  /** The elements used up as options and their arguments (and "--"), those that are neither,
      and what is reported; not `defined` if after that the behaviour is undefined. */
  datatype Scanned = Scanned(opts: seq<string>, nonopts: seq<string>, events: seq<Parsed>, defined: bool)

  function Before(opts: seq<string>, nonopts: seq<string>, events: seq<Parsed>, s: Scanned): Scanned {
    Scanned(opts + s.opts, nonopts + s.nonopts, events + s.events, s.defined)
  }

  /** The step at an option. */
  ghost function StepAt(cfg: Config, chars: string, tail: seq<string>): Parsed
    requires |tail| > 0 && (chars != "" || (IsOption(tail[0]) && !Undefined(cfg, tail)))
  {
    if chars != "" then ShortStep(cfg, chars, tail, None) else OptionStep(cfg, tail)
  }

  lemma StepTaken(cfg: Config, chars: string, tail: seq<string>)
    requires |tail| > 0 && (chars != "" || (IsOption(tail[0]) && !Undefined(cfg, tail)))
    ensures var p := StepAt(cfg, chars, tail);
      && p.taken <= |tail| && Left(p.rest, tail[p.taken..]) < Left(chars, tail)
      && (p.rest != "" ==> p.taken < |tail|)
  {
    hide ShortStep, OptionStep, Undefined;
    if chars != "" { ShortStepTaken(cfg, chars, tail, None); } else { OptionStepTaken(cfg, tail); }
    var p := StepAt(cfg, chars, tail);
    CharsDrop(tail, p.taken);
    assert tail[0..] == tail;
    if p.rest != "" { assert tail[p.taken..][0] == tail[p.taken]; }
  }

  /** The whole scan. */
  ghost function Scan(cfg: Config, chars: string, tail: seq<string>): Scanned
    decreases Left(chars, tail)
  {
    if tail == [] then Scanned([], [], [], true)
    else if chars == "" && tail[0] == "--" then Scanned(["--"], tail[1..], [], true)
    else if chars == "" && !IsOption(tail[0]) then
      match cfg.ordering
      case RequireOrder => Scanned([], tail, [], true)
      case Permute => Before([], [tail[0]], [], Scan(cfg, "", tail[1..]))
      case ReturnInOrder =>
        Before([tail[0]], [], [Parsed(1, Some(tail[0]), None, None, None, 1, "")], Scan(cfg, "", tail[1..]))
    else if chars == "" && Undefined(cfg, tail) then Scanned([], tail, [], false)
    else
      StepTaken(cfg, chars, tail);
      var p := StepAt(cfg, chars, tail);
      Before(tail[..p.taken], [], [p], Scan(cfg, p.rest, tail[p.taken..]))
  }

  // ----- Options whose value is -1 -----

  /** An option returns its value if it has no flag. */
  predicate ValueIsMinusOne(o: LongOpt) { o.flag == 0 && o.val == -1 }

  ghost predicate NoneMinusOne(cfg: Config) { cfg.longopts.Some? ==> forall o | o in cfg.longopts.value :: !ValueIsMinusOne(o) }

  ghost predicate Told(events: seq<Parsed>) { forall p | p in events :: p.code != -1 }

  /** A caller that asks until the answer is -1 does not get to where the behaviour is undefined. */
  ghost predicate Askable(s: Scanned) { s.defined || !Told(s.events) }

  lemma LongStepTold(cfg: Config, text: string, tail: seq<string>, longOnly: bool)
    requires |tail| > 0 && NoneMinusOne(cfg) && cfg.longopts.Some?
    ensures var l := LongStep(cfg, cfg.longopts.value, text, tail, longOnly); l.Long? ==> l.p.code != -1
  {
    var opts := cfg.longopts.value;
    LongMinusOne(cfg, opts, text, tail, longOnly);
    hide LongStep;
    forall i | 0 <= i < |opts| ensures !ValueIsMinusOne(opts[i]) { assert opts[i] in opts; }
  }

  lemma ShortStepTold(cfg: Config, chars: string, tail: seq<string>, arg: Option<string>)
    requires chars != "" && |tail| > 0 && NoneMinusOne(cfg)
    ensures ShortStep(cfg, chars, tail, arg).code != -1
  {
    if cfg.longopts.Some? {
      LongStepTold(cfg, chars[1..], tail, false);
      if |tail| > 1 { LongStepTold(cfg, tail[1], tail[1..], false); }
    }
    hide LongStep;
  }

  lemma OptionStepTold(cfg: Config, tail: seq<string>)
    requires |tail| > 0 && IsOption(tail[0]) && NoneMinusOne(cfg)
    ensures !Undefined(cfg, tail) && OptionStep(cfg, tail).code != -1
  {
    hide NoneMinusOne, ShortStep;
    var e := tail[0];
    if cfg.longopts.Some? {
      LongStepTold(cfg, e[2..], tail, cfg.longOnly);
      LongStepTold(cfg, e[1..], tail, true);
    }
    hide LongStep;
    ShortStepTold(cfg, e[1..], tail, None);
  }

  /** Without long_only every scan is defined. Where no option returns -1 as its value, every
      scan is defined and -1 is reported for the end only. */
  lemma {:induction false} ScanTold(cfg: Config, chars: string, tail: seq<string>)
    ensures !cfg.longOnly ==> Scan(cfg, chars, tail).defined
    ensures NoneMinusOne(cfg) ==> Scan(cfg, chars, tail).defined && Told(Scan(cfg, chars, tail).events)
    ensures !cfg.longOnly || NoneMinusOne(cfg) ==> Askable(Scan(cfg, chars, tail))
    decreases Left(chars, tail)
  {
    hide StepAt, NoneMinusOne, Undefined;
    if tail == [] || (chars == "" && tail[0] == "--") {
    } else if chars == "" && !IsOption(tail[0]) {
      ScanTold(cfg, "", tail[1..]);
    } else {
      if NoneMinusOne(cfg) { StepTold(cfg, chars, tail); }
      UndefinedLongOnly(cfg, tail);
      if chars != "" || !Undefined(cfg, tail) {
        StepTaken(cfg, chars, tail);
        var p := StepAt(cfg, chars, tail);
        ScanTold(cfg, p.rest, tail[p.taken..]);
      }
    }
  }

  lemma StepTold(cfg: Config, chars: string, tail: seq<string>)
    requires |tail| > 0 && (chars != "" || IsOption(tail[0])) && NoneMinusOne(cfg)
    ensures (chars != "" || !Undefined(cfg, tail)) && StepAt(cfg, chars, tail).code != -1
  {
    hide NoneMinusOne, Undefined, ShortStep, OptionStep;
    if chars != "" { ShortStepTold(cfg, chars, tail, None); } else { OptionStepTold(cfg, tail); }
  }

  lemma UndefinedLongOnly(cfg: Config, tail: seq<string>)
    requires |tail| > 0
    ensures IsOption(tail[0]) && Undefined(cfg, tail) ==> cfg.longOnly
  {
  }

  /** The behaviour is undefined at exactly those elements that name, for long_only, an option
      that returns -1 as its value and has no wrong or missing argument, if no element of two
      characters or more comes after it and its argument. */
  lemma UndefinedExactly(cfg: Config, tail: seq<string>)
    requires |tail| > 0 && IsOption(tail[0])
    ensures Undefined(cfg, tail) <==>
      && TriesLong(cfg, tail[0]) && ReturnsMinusOne(cfg.longopts.value, tail[0][1..], tail, true)
      && var next := AfterLong(cfg.longopts.value, tail[0][1..]); next >= |tail| || |tail[next]| < 2
  {
    if TriesLong(cfg, tail[0]) { LongMinusOne(cfg, cfg.longopts.value, tail[0][1..], tail, true); }
  }

  /** Where the element after the long option and its argument is. */
  ghost function AfterLong(opts: seq<LongOpt>, text: string): nat {
    var end := IndexOf(text, '=');
    var found := LookupOf(opts, text[..end], true);
    if found.Match? && found.i < |opts| && end == |text| && opts[found.i].hasArg == 1 then 2 else 1
  }

  /** In PERMUTE mode every argument is used up as an option or left over, in its order. */
  ghost predicate Merges(all: seq<string>, opts: seq<string>, nonopts: seq<string>) {
    if all == [] then opts == [] && nonopts == [] else
      || (opts != [] && opts[0] == all[0] && Merges(all[1..], opts[1..], nonopts))
      || (nonopts != [] && nonopts[0] == all[0] && Merges(all[1..], opts, nonopts[1..]))
  }

  lemma {:induction false} MergesBoth(front: seq<string>, all: seq<string>, opts: seq<string>, nonopts: seq<string>)
    requires Merges(all, opts, nonopts)
    ensures Merges(front + all, front + opts, nonopts) && Merges(front + all, opts, front + nonopts)
    decreases |front|
  {
    if front != [] {
      MergesBoth(front[1..], all, opts, nonopts);
      assert (front + all)[1..] == front[1..] + all;
      assert (front + opts)[1..] == front[1..] + opts;
      assert (front + nonopts)[1..] == front[1..] + nonopts;
    } else {
      assert front + all == all && front + opts == opts && front + nonopts == nonopts;
    }
  }

  /** The two parts of the result are the arguments themselves, split in two without
      changing the order within either part. */
  lemma {:induction false} ScanMerges(cfg: Config, chars: string, tail: seq<string>)
    ensures Merges(tail, Scan(cfg, chars, tail).opts, Scan(cfg, chars, tail).nonopts)
    decreases Left(chars, tail)
  {
    hide StepAt, Undefined;
    if tail == [] {
    } else if chars == "" && tail[0] == "--" {
      MergesNone(tail[1..]);
      MergesBoth(["--"], tail[1..], [], tail[1..]);
      assert tail == ["--"] + tail[1..];
    } else if chars == "" && !IsOption(tail[0]) {
      if cfg.ordering.RequireOrder? {
        MergesNone(tail);
      } else {
        ScanMerges(cfg, "", tail[1..]);
        var s := Scan(cfg, "", tail[1..]);
        MergesBoth([tail[0]], tail[1..], s.opts, s.nonopts);
        assert [] + s.opts == s.opts && [] + s.nonopts == s.nonopts;
        assert tail == [tail[0]] + tail[1..];
      }
    } else if chars == "" && Undefined(cfg, tail) {
      MergesNone(tail);
    } else {
      var p := StepAt(cfg, chars, tail);
      StepTaken(cfg, chars, tail);
      ScanMerges(cfg, p.rest, tail[p.taken..]);
      var s := Scan(cfg, p.rest, tail[p.taken..]);
      MergesBoth(tail[..p.taken], tail[p.taken..], s.opts, s.nonopts);
      assert tail == tail[..p.taken] + tail[p.taken..] && [] + s.nonopts == s.nonopts;
    }
  }

  lemma {:induction false} MergesNone(all: seq<string>)
    ensures Merges(all, [], all)
  {
    if all != [] { MergesNone(all[1..]); }
  }

  // ----- What a value of -1 does -----

  /** The option --foo with the value -1 and no flag. */
  function FooMinusOne(longOnly: bool): Config { Config("o", Some([LongOpt("foo", 0, 0, -1)]), longOnly, Permute) }

  lemma FooLookup(longOnly: bool)
    ensures LookupOf([LongOpt("foo", 0, 0, -1)], "foo", longOnly) == Match(0)
  {
    assert FirstExact([LongOpt("foo", 0, 0, -1)], "foo", 0) == 0;
  }

  lemma FooStep(cfg: Config, tail: seq<string>, longOnly: bool)
    requires |tail| > 0
    ensures LongStep(cfg, [LongOpt("foo", 0, 0, -1)], "foo", tail, longOnly) == Long(Parsed(-1, None, None, Some(0), None, 1, ""))
  {
    FooLookup(longOnly);
    assert IndexOf("foo", '=') == 3 && "foo"[..3] == "foo";
    hide LookupOf, IndexOf;
  }

  /** prog --foo -o: -1 is returned although an option is left to scan. */
  lemma MinusOneTooEarly()
    ensures var s := Scan(FooMinusOne(false), "", ["--foo", "-o"]);
      s.events == [Parsed(-1, None, None, Some(0), None, 1, ""), Parsed('o' as int, None, None, None, None, 1, "")]
  {
    var cfg, tail := FooMinusOne(false), ["--foo", "-o"];
    FooStep(cfg, tail, false);
    assert "--foo"[2..] == "foo";
    assert OptionStep(cfg, tail) == Parsed(-1, None, None, Some(0), None, 1, "") by { hide LongStep; }
    assert tail[1..] == ["-o"];
    assert "-o"[1..] == "o" && "o"[1..] == "";
    assert IndexOf("o", 'o') == 0;
    assert OptionStep(cfg, ["-o"]) == Parsed('o' as int, None, None, None, None, 1, "");
    assert ["-o"][1..] == [];
    hide OptionStep, Undefined;
  }

  /** prog -foo, with long_only: the element is taken, and then argv is read past its end. */
  lemma MinusOnePastEnd()
    ensures Undefined(FooMinusOne(true), ["-foo"])
    ensures Scan(FooMinusOne(true), "", ["-foo"]) == Scanned([], ["-foo"], [], false)
  {
    assert "-foo"[1..] == "foo";
    FooStep(FooMinusOne(true), ["-foo"], true);
    hide LongStep;
  }

  /** prog -foo xo, with long_only: both elements are taken, and the option o is reported. */
  lemma MinusOneTakesNext()
    ensures OptionStep(FooMinusOne(true), ["-foo", "xo"]) == Parsed('o' as int, None, None, Some(0), None, 2, "")
  {
    var cfg, tail := FooMinusOne(true), ["-foo", "xo"];
    assert "-foo"[1..] == "foo";
    FooStep(cfg, tail, true);
    assert tail[1][1..] == "o" && "o"[1..] == "" && IndexOf("o", 'o') == 0;
    hide LongStep;
  }
}
