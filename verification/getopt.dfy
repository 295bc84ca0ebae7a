/** _getopt_internal_r: a resumable scanner that moves non-options behind the options while
    it scans. */
module Getopt {
  import opened OptionSpec
  import opened ArgvExchange

  // ----- What is true between two calls -----

  /** `args` are the arguments as they were, scanned from index `start` on; `cur` is argv now.
      Options lie in [start, first) and [last, optind), the non-options passed over so far
      between them, and the reports made so far are `seen`. */
  ghost predicate Split(cfg: Config, args: seq<string>, start: nat, cur: seq<string>, optind: nat, first: nat, last: nat,
                        chars: string, seen: seq<Parsed>)
  {
    && |cur| == |args| && start <= first <= last <= optind <= |args|
    && cur[..start] == args[..start] && cur[optind..] == args[optind..]
    && (chars != "" ==> optind < |args|)
    && (!cfg.ordering.Permute? ==> first == last == start)
    && Scan(cfg, "", args[start..]) ==
         Before(cur[start..first] + cur[last..optind], cur[first..last], seen, Scan(cfg, chars, args[optind..]))
  }

  /** After the last call: options first, then non-options, both in their original order;
      optind is where the non-options begin; and everything has been reported. */
  ghost predicate Finished(cfg: Config, args: seq<string>, start: nat, cur: seq<string>, optind: nat, seen: seq<Parsed>)
    requires start <= |args|
  {
    var s := Scan(cfg, "", args[start..]);
    cur == args[..start] + s.opts + s.nonopts && optind == start + |s.opts| && seen == s.events
  }

  lemma SplitStart(cfg: Config, args: seq<string>, start: nat)
    requires start <= |args|
    ensures Split(cfg, args, start, args, start, start, start, "", [])
  {
    var s := Scan(cfg, "", args[start..]);
    assert [] + s.opts == s.opts && [] + s.nonopts == s.nonopts && [] + s.events == s.events;
  }

  lemma SplitExchanged(cfg: Config, args: seq<string>, start: nat, cur: seq<string>, optind: nat, first: nat, last: nat, seen: seq<Parsed>)
    requires Split(cfg, args, start, cur, optind, first, last, "", seen) && cfg.ordering.Permute?
    ensures Split(cfg, args, start, Rotated(cur, first, last, optind), optind, first + (optind - last), optind, "", seen)
  {
    hide Scan;
    var r, mid := Rotated(cur, first, last, optind), first + (optind - last);
    assert r[..start] == cur[..start] && r[optind..] == cur[optind..];
    assert r[start..mid] == cur[start..first] + cur[last..optind] && r[mid..optind] == cur[first..last];
    assert r[start..mid] + r[optind..optind] == r[start..mid];
  }

  lemma SplitJoined(cfg: Config, args: seq<string>, start: nat, cur: seq<string>, optind: nat, first: nat, last: nat, seen: seq<Parsed>)
    requires Split(cfg, args, start, cur, optind, first, last, "", seen) && cfg.ordering.Permute? && first == last
    ensures Split(cfg, args, start, cur, optind, optind, optind, "", seen)
  {
    hide Scan;
    assert cur[start..optind] + cur[optind..optind] == cur[start..first] + cur[last..optind];
    assert cur[optind..optind] == cur[first..last];
  }

  lemma BeforeTwice(o: seq<string>, n: seq<string>, e: seq<Parsed>, o': seq<string>, n': seq<string>, e': seq<Parsed>, s: Scanned)
    ensures Before(o, n, e, Before(o', n', e', s)) == Before(o + o', n + n', e + e', s)
  {
    assert o + (o' + s.opts) == o + o' + s.opts && n + (n' + s.nonopts) == n + n' + s.nonopts;
    assert e + (e' + s.events) == e + e' + s.events;
  }

  /** One more non-option is passed over. */
  lemma SplitSkipped(cfg: Config, args: seq<string>, start: nat, cur: seq<string>, optind: nat, first: nat, seen: seq<Parsed>)
    requires Split(cfg, args, start, cur, optind, first, optind, "", seen) && cfg.ordering.Permute?
    requires optind < |args| && !IsOption(cur[optind])
    ensures Split(cfg, args, start, cur, optind + 1, first, optind + 1, "", seen)
  {
    hide Scan;
    var tail := args[optind..];
    assert cur[optind..][0] == tail[0] && tail[1..] == args[optind + 1..];
    assert cur[optind + 1..] == cur[optind..][1..];
    ScanNonoption(cfg, tail);
    BeforeTwice(cur[start..first] + cur[optind..optind], cur[first..optind], seen, [], [tail[0]], [], Scan(cfg, "", tail[1..]));
    SkippedSlices(cur, start, optind, first, tail[0]);
    assert seen + [] == seen;
  }

  lemma SkippedSlices(cur: seq<string>, start: nat, optind: nat, first: nat, e: string)
    requires start <= first <= optind < |cur| && cur[optind] == e
    ensures cur[start..first] + cur[optind..optind] + [] == cur[start..first] + cur[optind + 1..optind + 1]
    ensures cur[first..optind + 1] == cur[first..optind] + [e]
  {
  }

  lemma ScanNonoption(cfg: Config, tail: seq<string>)
    requires tail != [] && !IsOption(tail[0])
    ensures cfg.ordering.Permute? ==> Scan(cfg, "", tail) == Before([], [tail[0]], [], Scan(cfg, "", tail[1..]))
    ensures cfg.ordering.ReturnInOrder? ==>
      Scan(cfg, "", tail) == Before([tail[0]], [], [Parsed(1, Some(tail[0]), None, None, None, 1, "")], Scan(cfg, "", tail[1..]))
    ensures cfg.ordering.RequireOrder? ==> Scan(cfg, "", tail) == Scanned([], tail, [], true)
  {
    assert tail[0] != "--";
  }

  lemma ScanDashes(cfg: Config, tail: seq<string>)
    requires tail != [] && tail[0] == "--"
    ensures Scan(cfg, "", tail) == Scanned(["--"], tail[1..], [], true)
  {
  }

  lemma ScanOption(cfg: Config, chars: string, tail: seq<string>)
    requires tail != [] && (chars != "" || (IsOption(tail[0]) && tail[0] != "--" && !Undefined(cfg, tail)))
    ensures var p := StepAt(cfg, chars, tail);
      p.taken <= |tail| && Scan(cfg, chars, tail) == Before(tail[..p.taken], [], [p], Scan(cfg, p.rest, tail[p.taken..]))
  {
    StepTaken(cfg, chars, tail);
    hide StepAt, Undefined;
  }

  /** The next report is not beyond the defined part. */
  ghost predicate Ahead(cfg: Config, args: seq<string>, start: nat, seen: seq<Parsed>)
    requires start <= |args|
  {
    var s := Scan(cfg, "", args[start..]);
    s.defined || |seen| < |s.events|
  }

  lemma AheadDefined(cfg: Config, args: seq<string>, start: nat, cur: seq<string>, optind: nat, first: nat, last: nat,
                     seen: seq<Parsed>)
    requires Split(cfg, args, start, cur, optind, first, last, "", seen) && Ahead(cfg, args, start, seen)
    requires optind < |args| && IsOption(args[optind]) && args[optind] != "--"
    ensures !Undefined(cfg, args[optind..])
  {
    hide Undefined, StepAt;
  }

  lemma SeenFirst(cfg: Config, args: seq<string>, start: nat, cur: seq<string>, optind: nat, first: nat, last: nat,
                  chars: string, seen: seq<Parsed>)
    ensures Split(cfg, args, start, cur, optind, first, last, chars, seen) ==>
      start <= |args| && seen <= Scan(cfg, "", args[start..]).events
  {
    hide Scan;
  }

  lemma AskableAhead(cfg: Config, args: seq<string>, start: nat, seen: seq<Parsed>)
    requires start <= |args| && Told(seen)
    requires var s := Scan(cfg, "", args[start..]); Askable(s) && seen <= s.events
    ensures Ahead(cfg, args, start, seen)
  {
    hide Scan;
    var s := Scan(cfg, "", args[start..]);
    if |seen| == |s.events| { assert seen == s.events; }
  }

  /** The first -1 is the end exactly if no report is -1. */
  lemma StopsAt(cfg: Config, args: seq<string>, start: nat, cur: seq<string>, optind: nat, seen: seq<Parsed>, p: Parsed, over: bool)
    requires start <= |args| && Told(seen) && (!over ==> p.code == -1)
    requires if over then Finished(cfg, args, start, cur, optind, seen) else seen + [p] <= Scan(cfg, "", args[start..]).events
    ensures var events := Scan(cfg, "", args[start..]).events;
      && (over <==> Told(events)) && (Finished(cfg, args, start, cur, optind, seen) <==> Told(events))
      && (!over ==> |seen| < |events| && events[|seen|] == p && events[..|seen| + 1] == seen + [p])
  {
    hide Scan;
    var events := Scan(cfg, "", args[start..]).events;
    if !over { assert p in seen + [p] && (seen + [p])[|seen|] == p; assert events[|seen|] == p && p in events; }
  }

  /** One more report: `taken` elements are used up as an option. */
  lemma SplitReported(cfg: Config, args: seq<string>, start: nat, cur: seq<string>, optind: nat, first: nat, last: nat,
                      chars: string, seen: seq<Parsed>, p: Parsed)
    requires Split(cfg, args, start, cur, optind, first, last, chars, seen) && optind + p.taken <= |args|
    requires p.rest != "" ==> optind + p.taken < |args|
    requires var tail := args[optind..];
      tail != [] && Scan(cfg, chars, tail) == Before(tail[..p.taken], [], [p], Scan(cfg, p.rest, tail[p.taken..]))
    ensures Split(cfg, args, start, cur, optind + p.taken, first, last, p.rest, seen + [p])
  {
    hide Scan;
    var tail, k := args[optind..], optind + p.taken;
    assert tail[p.taken..] == args[k..];
    assert cur[k..] == cur[optind..][p.taken..];
    BeforeTwice(cur[start..first] + cur[last..optind], cur[first..last], seen, tail[..p.taken], [], [p], Scan(cfg, p.rest, args[k..]));
    assert cur[last..k] == cur[last..optind] + cur[optind..][..p.taken];
    assert cur[start..first] + cur[last..k] == cur[start..first] + cur[last..optind] + tail[..p.taken];
    assert cur[first..last] + [] == cur[first..last];
  }

  /** Everything is scanned. */
  lemma FinishedAtEnd(cfg: Config, args: seq<string>, start: nat, cur: seq<string>, first: nat, last: nat, seen: seq<Parsed>)
    requires Split(cfg, args, start, cur, |args|, first, last, "", seen) && (first == last || last == |args|)
    ensures Finished(cfg, args, start, cur, if first == last then |args| else first, seen)
  {
    assert args[|args|..] == [] && Scan(cfg, "", []) == Scanned([], [], [], true);
    hide Scan;
    var s := Scan(cfg, "", args[start..]);
    assert s.opts == cur[start..first] + cur[last..] && s.nonopts == cur[first..last] && s.events == seen;
    AllSlices(cur, start, first, last);
  }

  lemma AllSlices(cur: seq<string>, start: nat, first: nat, last: nat)
    requires start <= first <= last <= |cur| && (first == last || last == |cur|)
    ensures var o := cur[start..first] + cur[last..];
      cur == cur[..start] + o + cur[first..last] && start + |o| == if first == last then |cur| else first
  {
  }

  /** "--" ends the scan. */
  lemma FinishedAtDashes(cfg: Config, args: seq<string>, start: nat, cur: seq<string>,
                         optind: nat, first: nat, last: nat, seen: seq<Parsed>)
    requires Split(cfg, args, start, cur, optind, first, last, "", seen) && optind < |args| && cur[optind] == "--"
    requires first == last || last == optind
    ensures first == last ==> Finished(cfg, args, start, cur, optind + 1, seen)
    ensures first != last ==> Finished(cfg, args, start, Rotated(cur, first, last, optind + 1), first + (optind + 1 - last), seen)
  {
    hide Scan;
    var s, tail := Scan(cfg, "", args[start..]), args[optind..];
    assert cur[optind..][0] == tail[0];
    ScanDashes(cfg, tail);
    assert s.opts == cur[start..first] + cur[last..optind] + ["--"] && s.nonopts == cur[first..last] + tail[1..] && s.events == seen;
    assert tail[1..] == cur[optind + 1..] by { assert cur[optind + 1..] == cur[optind..][1..]; }
    if first == last { DashesInPlace(cur, start, optind, first); } else { DashesMoved(cur, start, optind, first, last); }
  }

  lemma DashesInPlace(cur: seq<string>, start: nat, optind: nat, first: nat)
    requires start <= first <= optind < |cur| && cur[optind] == "--"
    ensures cur == cur[..start] + (cur[start..first] + cur[first..optind] + ["--"]) + (cur[first..first] + cur[optind + 1..])
  {
  }

  lemma DashesMoved(cur: seq<string>, start: nat, optind: nat, first: nat, last: nat)
    requires start <= first <= last <= optind < |cur| && cur[optind] == "--"
    ensures Rotated(cur, first, last, optind + 1) ==
      cur[..start] + (cur[start..first] + cur[last..optind] + ["--"]) + (cur[first..last] + cur[optind + 1..])
  {
    assert cur[..first] == cur[..start] + cur[start..first];
    assert cur[last..optind + 1] == cur[last..optind] + ["--"];
  }

  /** With REQUIRE_ORDER a non-option ends the scan. */
  lemma FinishedAtNonoption(cfg: Config, args: seq<string>, start: nat, cur: seq<string>,
                            optind: nat, first: nat, last: nat, seen: seq<Parsed>)
    requires Split(cfg, args, start, cur, optind, first, last, "", seen) && optind < |args| && !IsOption(cur[optind])
    requires cfg.ordering.RequireOrder?
    ensures Finished(cfg, args, start, cur, optind, seen)
  {
    hide Scan;
    var s, tail := Scan(cfg, "", args[start..]), args[optind..];
    assert cur[optind..][0] == tail[0];
    ScanNonoption(cfg, tail);
    assert s.opts == cur[start..optind] && s.nonopts == tail && s.events == seen;
    assert cur == cur[..start] + s.opts + s.nonopts;
  }

  // ----- The scanner -----

  function Min(a: nat, b: nat): nat { if a < b then a else b }

  function Body(raw: string): string { if CharAt(raw, 0, '-') || CharAt(raw, 0, '+') then raw[1..] else raw }

  function OrderingOf(raw: string, posixlyCorrect: bool): Ordering {
    if CharAt(raw, 0, '-') then ReturnInOrder
    else if CharAt(raw, 0, '+') || posixlyCorrect then RequireOrder
    else Permute
  }

  /** struct _getopt_data with the arguments that stay the same from call to call. A null
      `__nextchar` and one at the end of its element are both "". */
  class Scanner {
    const argv: array<string>
    const raw: string
    const longopts: Option<seq<LongOpt>>
    const longOnly: bool
    const posixlyCorrect: bool

    var optind: nat
    var initialized: bool
    var ordering: Ordering
    var nextchar: string
    var firstNonopt: nat
    var lastNonopt: nat
    var optarg: Option<string>
    var optopt: int
    var longind: int
    var flags: map<nat, int>

    constructor (argv: array<string>, raw: string, longopts: Option<seq<LongOpt>>, longOnly: bool, posixlyCorrect: bool)
      ensures this.argv == argv && this.raw == raw && this.longopts == longopts && this.longOnly == longOnly
      ensures this.posixlyCorrect == posixlyCorrect && optind == 1 && !initialized
    {
      this.argv, this.raw, this.longopts, this.longOnly, this.posixlyCorrect := argv, raw, longopts, longOnly, posixlyCorrect;
      optind, initialized, ordering, nextchar, firstNonopt, lastNonopt := 1, false, Permute, "", 0, 0;
      optarg, optopt, longind, flags := None, QUESTION, 0, map[];
    }

    function Cfg(): Config { Config(Body(raw), longopts, longOnly, OrderingOf(raw, posixlyCorrect)) }

    /** What a report leaves in optarg, optopt, *longind and the flags. */
    ghost predicate Stored(p: Parsed, optopt0: int, longind0: int, flags0: map<nat, int>)
      reads this
    {
      && optarg == p.optarg
      && optopt == (if p.optopt.Some? then p.optopt.value else optopt0)
      && longind == (if p.index.Some? then p.index.value else longind0)
      && flags == (if p.stored.Some? then flags0[p.stored.value.0 := p.stored.value.1] else flags0)
    }

    /** The two searches of process_long_option. */
    method LookUp(opts: seq<LongOpt>, key: string, longOnly: bool) returns (l: Lookup)
      ensures l == LookupOf(opts, key, longOnly) && (l.Match? ==> l.i < |opts|)
    {
      var n := 0;
      while n < |opts|
        invariant n <= |opts| && forall j | 0 <= j < n :: opts[j].name != key
      {
        if Abbreviates(key, opts[n]) && |key| == |opts[n].name| { break; }
        n := n + 1;
      }
      if n < |opts| { return Match(n); }
      var found, ambiguous, p := -1, false, 0;
      while p < |opts|
        invariant p <= |opts| && -1 <= found < p
        invariant found == -1 ==> !ambiguous && forall j | 0 <= j < p :: !Abbreviates(key, opts[j])
        invariant found >= 0 ==> Abbreviates(key, opts[found]) && forall j | 0 <= j < found :: !Abbreviates(key, opts[j])
        invariant found >= 0 ==>
          (ambiguous <==> exists j | found < j < p :: Abbreviates(key, opts[j]) && (longOnly || Differ(opts[found], opts[j])))
      {
        if Abbreviates(key, opts[p]) {
          if found == -1 {
            found := p;
          } else if longOnly || Differ(opts[found], opts[p]) {
            ambiguous := true;
          }
        }
        p := p + 1;
      }
      l := if ambiguous then Ambiguous else if found == -1 then NoMatch else Match(found);
    }

    /** The part of process_long_option that takes up the option that was found. */
    method TakeLong(o: LongOpt, i: nat, rest: string) returns (code: int)
      requires optind < argv.Length && optarg == None
      modifies this`optind, this`nextchar, this`optarg, this`optopt, this`longind, this`flags
      ensures var p := MatchStep(Cfg(), o, i, rest, argv[old(optind)..]);
        && code == p.code && optind == old(optind) + p.taken && nextchar == ""
        && Stored(p, old(optopt), old(longind), old(flags))
    {
      optind := optind + 1;
      nextchar := "";
      if rest != "" {
        if o.hasArg != 0 {
          optarg := Some(rest[1..]);
        } else {
          optopt := o.val;
          return QUESTION;
        }
      } else if o.hasArg == 1 {
        if optind < argv.Length {
          optarg := Some(argv[optind]);
          optind := optind + 1;
        } else {
          optopt := o.val;
          return if CharAt(Body(raw), 0, ':') then COLON else QUESTION;
        }
      }
      longind := i;
      if o.flag != 0 {
        flags := flags[o.flag := o.val];
        code := 0;
      } else {
        code := o.val;
      }
    }

    /** process_long_option: -1 if, with long_only, it is to be tried as a short option, and then
        nothing has changed; or -1 as the value of an option, which then has been taken. */
    method ProcessLongOption(opts: seq<LongOpt>, longOnly: bool) returns (code: int, ghost l: LongResult)
      requires optind < argv.Length && optarg == None
      modifies this`optind, this`nextchar, this`optarg, this`optopt, this`longind, this`flags
      ensures l == LongStep(Cfg(), opts, old(nextchar), argv[old(optind)..], longOnly)
      ensures code == -1 <==> l.NotLong? || ReturnsMinusOne(opts, old(nextchar), argv[old(optind)..], longOnly)
      ensures var end := IndexOf(old(nextchar), '='); var found := LookupOf(opts, old(nextchar)[..end], longOnly);
        found.Match? && found.i < |opts| && opts[found.i].hasArg != 0 && end < |old(nextchar)| ==>
          optarg == Some(old(nextchar)[end + 1..])
      ensures l.NotLong? ==>
        && code == -1 && optind == old(optind) && nextchar == old(nextchar)
        && optarg == None && optopt == old(optopt) && longind == old(longind) && flags == old(flags)
      ensures l.Long? ==>
        && code == l.p.code && optind == old(optind) + l.p.taken && nextchar == ""
        && Stored(l.p, old(optopt), old(longind), old(flags))
    {
      hide LookupOf, IndexOf, ReturnsMinusOne;
      ghost var text, tail := nextchar, argv[optind..];
      var nameend := 0;
      while nameend < |nextchar| && nextchar[nameend] != '='
        invariant nameend <= |nextchar| && forall j | 0 <= j < nameend :: nextchar[j] != '='
      {
        nameend := nameend + 1;
      }
      assert nameend == IndexOf(nextchar, '=');
      var found := LookUp(opts, nextchar[..nameend], longOnly);
      l := LongStep(Cfg(), opts, text, tail, longOnly);
      LongMinusOne(Cfg(), opts, text, tail, longOnly);
      match found
      case Ambiguous =>
        nextchar, optopt := "", 0;
        optind := optind + 1;
        code := QUESTION;
      case NoMatch =>
        if !longOnly || CharAt(argv[optind], 1, '-') || (|nextchar| > 0 && IndexOf(Body(raw), nextchar[0]) == |Body(raw)|) {
          nextchar, optopt := "", 0;
          optind := optind + 1;
          code := QUESTION;
        } else {
          code := -1;
        }
      case Match(i) => code := TakeLong(opts[i], i, nextchar[nameend..]);
    }

    /** After W: the rest of the element, or else the next element, is a long option. */
    method LongAfterW(c: char) returns (code: int, ghost p: Parsed)
      requires longopts.Some? && optind <= argv.Length && (nextchar != "" ==> optind < argv.Length)
      modifies this`optind, this`nextchar, this`optarg, this`optopt, this`longind, this`flags
      ensures p ==
        if old(nextchar) != "" then OfLong(LongStep(Cfg(), longopts.value, old(nextchar), argv[old(optind)..], false), 0)
        else if old(optind) == argv.Length then Parsed(Missing(Cfg()), old(optarg), Some(c as int), None, None, 0, "")
        else OfLong(LongStep(Cfg(), longopts.value, argv[old(optind)], argv[old(optind)..], false), 0)
      ensures code == p.code && optind == old(optind) + p.taken && nextchar == p.rest
      ensures Stored(p, old(optopt), old(longind), old(flags))
    {
      hide LongStep, IndexOf, LookupOf, ReturnsMinusOne;
      if nextchar == "" {
        if optind == argv.Length {
          optopt := c as int;
          return Missing(Cfg()), Parsed(Missing(Cfg()), optarg, Some(c as int), None, None, 0, "");
        }
        nextchar := argv[optind];
      }
      LongStepTaken(Cfg(), longopts.value, nextchar, argv[optind..], false);
      optarg := None;
      ghost var l;
      code, l := ProcessLongOption(longopts.value, false);
      p := OfLong(l, 0);
    }

    /** The next option character. */
    method ShortOption() returns (code: int, ghost p: Parsed)
      requires nextchar != "" && optind < argv.Length
      modifies this`optind, this`nextchar, this`optarg, this`optopt, this`longind, this`flags
      ensures p == ShortStep(Cfg(), old(nextchar), argv[old(optind)..], old(optarg))
      ensures code == p.code && optind == old(optind) + p.taken && nextchar == p.rest
      ensures Stored(p, old(optopt), old(longind), old(flags))
    {
      hide LongStep, IndexOf, LookupOf, ReturnsMinusOne;
      ghost var tail := argv[optind..];
      p := ShortStep(Cfg(), nextchar, tail, optarg);
      var optstring := Body(raw);
      var c := nextchar[0];
      nextchar := nextchar[1..];
      var temp := IndexOf(optstring, c);
      if nextchar == "" { optind := optind + 1; }
      if temp == |optstring| || c == ':' || c == ';' {
        optopt := c as int;
        return QUESTION, p;
      }
      if c == 'W' && CharAt(optstring, temp + 1, ';') && longopts.Some? {
        if nextchar == "" && |tail| > 1 { LongStepTaken(Cfg(), longopts.value, tail[1], tail[1..], false); }
        assert nextchar == "" ==> tail[1..] == argv[optind..];
        ghost var q;
        code, q := LongAfterW(c);
        return;
      }
      code := c as int;
      if CharAt(optstring, temp + 1, ':') { code := TakeArgument(c, CharAt(optstring, temp + 2, ':')); }
    }

    /** The argument of an option character: the rest of its element, or else, unless it is
        optional, the next element. */
    method TakeArgument(c: char, optional: bool) returns (code: int)
      requires optind <= argv.Length
      modifies this`optind, this`nextchar, this`optarg, this`optopt
      ensures nextchar == ""
      ensures var missing := old(nextchar) == "" && !optional && old(optind) == argv.Length;
        && code == (if missing then Missing(Cfg()) else c as int)
        && optopt == (if missing then c as int else old(optopt))
        && optarg == (if old(nextchar) != "" then Some(old(nextchar))
                      else if optional then None else if missing then old(optarg) else Some(argv[old(optind)]))
        && optind == old(optind) + if old(nextchar) == "" && (optional || missing) then 0 else 1
    {
      code := c as int;
      if optional {
        if nextchar != "" {
          optarg := Some(nextchar);
          optind := optind + 1;
        } else {
          optarg := None;
        }
        nextchar := "";
      } else {
        if nextchar != "" {
          optarg := Some(nextchar);
          optind := optind + 1;
        } else if optind == argv.Length {
          optopt := c as int;
          code := Missing(Cfg());
        } else {
          optarg := Some(argv[optind]);
          optind := optind + 1;
        }
        nextchar := "";
      }
    }

    /** The element at optind is an option other than "--". */
    method OptionElement() returns (code: int, ghost p: Parsed)
      requires nextchar == "" && optind < argv.Length && optarg == None && IsOption(argv[optind])
      requires !Undefined(Cfg(), argv[optind..])
      modifies this`optind, this`nextchar, this`optarg, this`optopt, this`longind, this`flags
      ensures p == OptionStep(Cfg(), argv[old(optind)..])
      ensures code == p.code && optind == old(optind) + p.taken && nextchar == p.rest
      ensures Stored(p, old(optopt), old(longind), old(flags))
    {
      hide LongStep, ShortStep, IndexOf, ReturnsMinusOne;
      ghost var tail := argv[optind..];
      var e := argv[optind];
      assert tail[0] == e;
      ghost var l := NotLong;
      if longopts.Some? {
        if e[1] == '-' {
          LongStepTaken(Cfg(), longopts.value, e[2..], tail, longOnly);
          nextchar := e[2..];
          code, l := ProcessLongOption(longopts.value, longOnly);
          return code, l.p;
        }
        if longOnly && (|e| > 2 || IndexOf(Body(raw), e[1]) == |Body(raw)|) {
          LongStepTaken(Cfg(), longopts.value, e[1..], tail, true);
          LongMinusOne(Cfg(), longopts.value, e[1..], tail, true);
          nextchar := e[1..];
          code, l := ProcessLongOption(longopts.value, true);
          if code != -1 { return code, l.p; }
        }
      }
      assert argv[optind] == if l.Long? then tail[l.p.taken] else e;
      assert argv[optind..] == if l.Long? then tail[l.p.taken..] else tail;
      nextchar := argv[optind][1..];
      ghost var q;
      code, q := ShortOption();
      p := if l.Long? then Onward(l.p, q) else q;
    }

    /** exchange */
    method ExchangeNonopts()
      requires firstNonopt <= lastNonopt <= optind <= argv.Length
      modifies this`firstNonopt, this`lastNonopt, argv
      ensures argv[..] == Rotated(old(argv[..]), old(firstNonopt), old(lastNonopt), optind)
      ensures firstNonopt == old(firstNonopt) + (optind - old(lastNonopt)) && lastNonopt == optind
    {
      Exchange(argv, firstNonopt, lastNonopt, optind);
      firstNonopt := firstNonopt + (optind - lastNonopt);
      lastNonopt := optind;
    }

    /** The scan so far, on the fields. */
    ghost predicate Scanning(args: seq<string>, start: nat, seen: seq<Parsed>)
      reads this, argv
    {
      && initialized && ordering == Cfg().ordering && optind > 0 && start > 0
      && Split(Cfg(), args, start, argv[..], optind, firstNonopt, lastNonopt, nextchar, seen)
    }

    /** In PERMUTE mode: put the options processed last in front of the non-options passed
        over before them, and pass over the non-options that follow. */
    method PassNonoptions(ghost args: seq<string>, ghost start: nat, ghost seen: seq<Parsed>)
      requires Scanning(args, start, seen) && nextchar == "" && ordering.Permute?
      modifies this`optind, this`firstNonopt, this`lastNonopt, argv
      ensures Scanning(args, start, seen) && lastNonopt == optind && old(optind) <= optind
      ensures optind < argv.Length ==> IsOption(argv[optind])
    {
      hide Scan, Rotated, Split;
      BetweenBounds(Cfg(), args, start, argv[..], optind, firstNonopt, lastNonopt, nextchar, seen);
      if firstNonopt != lastNonopt && lastNonopt != optind {
        SplitExchanged(Cfg(), args, start, argv[..], optind, firstNonopt, lastNonopt, seen);
        ExchangeNonopts();
      } else if lastNonopt != optind {
        SplitJoined(Cfg(), args, start, argv[..], optind, firstNonopt, lastNonopt, seen);
        firstNonopt := optind;
      }
      ghost var from := optind;
      while optind < argv.Length && !IsOption(argv[optind])
        invariant from <= optind <= argv.Length
        invariant Split(Cfg(), args, start, argv[..], optind, firstNonopt, optind, "", seen)
        modifies this`optind
      {
        BetweenBounds(Cfg(), args, start, argv[..], optind, firstNonopt, optind, "", seen);
        SplitSkipped(Cfg(), args, start, argv[..], optind, firstNonopt, seen);
        optind := optind + 1;
      }
      lastNonopt := optind;
    }

    /** _getopt_initialize */
    method Initialize(ghost args: seq<string>, ghost start: nat)
      requires argv[..] == args && start == (if optind == 0 then 1 else optind) && start <= |args|
      modifies this`optind, this`firstNonopt, this`lastNonopt, this`nextchar, this`ordering, this`initialized
      ensures Scanning(args, start, []) && nextchar == "" && optind == start
    {
      SplitStart(Cfg(), args, start);
      if optind == 0 { optind := 1; }
      firstNonopt, lastNonopt := optind, optind;
      nextchar := "";
      ordering := OrderingOf(raw, posixlyCorrect);
      initialized := true;
    }

    /** Before the first call, or between two calls. */
    ghost predicate Valid(args: seq<string>, start: nat, seen: seq<Parsed>)
      reads this, argv
    {
      argv.Length > 0 ==>
        if optind == 0 || !initialized
        then argv[..] == args && start == (if optind == 0 then 1 else optind) && start <= |args| && seen == []
        else Scanning(args, start, seen)
    }

    /** The characters and elements left to scan. */
    ghost function Remaining(args: seq<string>, start: nat): nat
      reads this
    {
      if optind == 0 || !initialized then (if start <= |args| then Chars(args[start..]) else 0)
      else if optind <= |args| then Left(nextchar, args[optind..]) else 0
    }

    /** The element at optind is "--": whatever follows is no option. */
    method PassDashes(ghost args: seq<string>, ghost start: nat, ghost seen: seq<Parsed>)
      requires Scanning(args, start, seen) && nextchar == "" && optind < argv.Length && argv[optind] == "--"
      requires firstNonopt == lastNonopt || lastNonopt == optind
      modifies this`optind, this`firstNonopt, this`lastNonopt, argv
      ensures optind == argv.Length == lastNonopt
      ensures Finished(Cfg(), args, start, argv[..], firstNonopt, seen) && start <= firstNonopt
    {
      hide Scan, Rotated, Finished;
      FinishedAtDashes(Cfg(), args, start, argv[..], optind, firstNonopt, lastNonopt, seen);
      optind := optind + 1;
      if firstNonopt != lastNonopt && lastNonopt != optind {
        ExchangeNonopts();
      } else if firstNonopt == lastNonopt {
        firstNonopt := optind;
      }
      lastNonopt := argv.Length;
      optind := argv.Length;
    }

    /** The part of _getopt_internal_r that moves to the next element. It is `over` at the end
        of the arguments or after "--"; optind is then at the first non-option. */
    method Advance(ghost args: seq<string>, ghost start: nat, ghost seen: seq<Parsed>) returns (over: bool)
      requires Scanning(args, start, seen) && nextchar == ""
      modifies this`optind, this`firstNonopt, this`lastNonopt, argv
      ensures over ==> start <= |args| && Finished(Cfg(), args, start, argv[..], optind, seen)
      ensures !over ==> Scanning(args, start, seen) && old(optind) <= optind < argv.Length && argv[optind] != "--"
      ensures !over && ordering.Permute? ==> IsOption(argv[optind])
    {
      hide Scan, Rotated, Finished, Split;
      BetweenBounds(Cfg(), args, start, argv[..], optind, firstNonopt, lastNonopt, nextchar, seen);
      lastNonopt := Min(lastNonopt, optind);
      firstNonopt := Min(firstNonopt, optind);
      if ordering.Permute? { PassNonoptions(args, start, seen); }
      BetweenBounds(Cfg(), args, start, argv[..], optind, firstNonopt, lastNonopt, nextchar, seen);
      if optind == argv.Length {
        FinishedAtEnd(Cfg(), args, start, argv[..], firstNonopt, lastNonopt, seen);
      }
      if optind != argv.Length && argv[optind] == "--" { PassDashes(args, start, seen); }
      over := optind == argv.Length;
      if over && firstNonopt != lastNonopt { optind := firstNonopt; }
    }

    /** The element moved to is no option: it ends the scan or is reported in its place. */
    method NextNonoption(ghost args: seq<string>, ghost start: nat, ghost seen: seq<Parsed>)
      returns (code: int, ghost p: Parsed, ghost over: bool)
      requires Scanning(args, start, seen) && nextchar == "" && optarg == None
      requires optind < argv.Length && !IsOption(argv[optind]) && !ordering.Permute?
      modifies this`optarg, this`optind
      ensures !over ==>
        && Scanning(args, start, seen + [p]) && code == p.code && Stored(p, optopt, longind, flags)
        && old(optind) <= optind <= |args| && Left("", args[optind..]) < Chars(args[old(optind)..])
      ensures over ==> code == -1 && start <= |args| && Finished(Cfg(), args, start, argv[..], optind, seen)
    {
      hide Scan, Finished, Split, Left, Chars;
      BetweenBounds(Cfg(), args, start, argv[..], optind, firstNonopt, lastNonopt, nextchar, seen);
      ghost var tail, at := args[optind..], optind;
      assert tail == argv[optind..] && tail[0] == argv[optind];
      if ordering.RequireOrder? {
        FinishedAtNonoption(Cfg(), args, start, argv[..], optind, firstNonopt, lastNonopt, seen);
        return -1, Parsed(-1, None, None, None, None, 0, ""), true;
      }
      NonoptionReported(Cfg(), tail);
      optarg := Some(argv[optind]);
      optind := optind + 1;
      code, p, over := 1, Parsed(1, optarg, None, None, None, 1, ""), false;
      assert tail[1..] == args[optind..];
      SplitReported(Cfg(), args, start, argv[..], at, firstNonopt, lastNonopt, "", seen, p);
    }

    /** The element moved to is an option. */
    method NextOption(ghost args: seq<string>, ghost start: nat, ghost seen: seq<Parsed>) returns (code: int, ghost p: Parsed)
      requires Scanning(args, start, seen) && nextchar == "" && optarg == None
      requires optind < argv.Length && argv[optind] != "--" && IsOption(argv[optind])
      requires start <= |args| && Ahead(Cfg(), args, start, seen)
      modifies this`optind, this`nextchar, this`optarg, this`optopt, this`longind, this`flags
      ensures Scanning(args, start, seen + [p]) && code == p.code && Stored(p, old(optopt), old(longind), old(flags))
      ensures old(optind) <= optind <= |args| && Left(nextchar, args[optind..]) < Chars(args[old(optind)..])
    {
      hide Scan, Split, StepAt, Left, Chars, Undefined, Ahead, IsOption, Stored, OptionStep;
      BetweenBounds(Cfg(), args, start, argv[..], optind, firstNonopt, lastNonopt, nextchar, seen);
      ghost var cur, tail, at := argv[..], args[optind..], optind;
      assert tail == argv[optind..] && tail[0] == argv[optind];
      LeftNone(tail);
      AheadDefined(Cfg(), args, start, argv[..], optind, firstNonopt, lastNonopt, seen);
      StepTaken(Cfg(), "", tail);
      ScanOption(Cfg(), "", tail);
      StepShort(Cfg(), "", tail);
      code, p := OptionElement();
      assert tail[p.taken..] == args[optind..];
      SplitReported(Cfg(), args, start, cur, at, firstNonopt, lastNonopt, "", seen, p);
    }

    /** The part of _getopt_internal_r that looks at the element moved to. */
    method NextElement(ghost args: seq<string>, ghost start: nat, ghost seen: seq<Parsed>)
      returns (code: int, ghost p: Parsed, ghost over: bool)
      requires Scanning(args, start, seen) && nextchar == "" && optarg == None
      requires optind < argv.Length && argv[optind] != "--" && (ordering.Permute? ==> IsOption(argv[optind]))
      requires start <= |args| && Ahead(Cfg(), args, start, seen)
      modifies this
      ensures !over ==>
        && initialized && Scanning(args, start, seen + [p]) && code == p.code
        && Stored(p, old(optopt), old(longind), old(flags))
        && old(optind) <= optind <= |args| && Left(nextchar, args[optind..]) < Chars(args[old(optind)..])
      ensures over ==> code == -1 && start <= |args| && Finished(Cfg(), args, start, argv[..], optind, seen)
    {
      hide Scan, Finished, Split, StepAt, Left, Chars, Undefined, Ahead;
      if !IsOption(argv[optind]) {
        code, p, over := NextNonoption(args, start, seen);
      } else {
        code, p := NextOption(args, start, seen);
        over := false;
      }
    }

    /** The part of _getopt_internal_r that goes on with the element it is in. */
    method NextCharacter(ghost args: seq<string>, ghost start: nat, ghost seen: seq<Parsed>) returns (code: int, ghost p: Parsed)
      requires Scanning(args, start, seen) && nextchar != "" && optarg == None
      modifies this
      ensures initialized && Scanning(args, start, seen + [p]) && code == p.code
      ensures Stored(p, old(optopt), old(longind), old(flags))
      ensures old(optind) <= optind <= |args| && Left(nextchar, args[optind..]) < Left(old(nextchar), args[old(optind)..])
    {
      hide Scan, Split, StepAt, Left, ShortStep, OptionStep, Undefined, IsOption, Stored;
      BetweenBounds(Cfg(), args, start, argv[..], optind, firstNonopt, lastNonopt, nextchar, seen);
      ghost var cur, tail, chars, at := argv[..], args[optind..], nextchar, optind;
      assert tail == argv[optind..];
      StepTaken(Cfg(), chars, tail);
      ScanOption(Cfg(), chars, tail);
      StepShort(Cfg(), chars, tail);
      code, p := ShortOption();
      assert tail[p.taken..] == args[optind..];
      SplitReported(Cfg(), args, start, cur, at, firstNonopt, lastNonopt, chars, seen, p);
    }

    /** _getopt_internal_r. If everything has been reported it is `over`: -1 is returned, and argv
        is in its final order. Otherwise the result is the next report of the scan that moves
        nothing, and there is less to scan after it; it too can be -1. */
    method GetNext(ghost args: seq<string>, ghost start: nat, ghost seen: seq<Parsed>)
      returns (code: int, ghost p: Parsed, ghost over: bool)
      requires Valid(args, start, seen) && (argv.Length > 0 ==> start <= |args| && Ahead(Cfg(), args, start, seen))
      modifies this, argv
      ensures !over ==>
        && argv.Length > 0 && initialized && Scanning(args, start, seen + [p]) && code == p.code
        && Stored(p, old(optopt), old(longind), old(flags))
        && Remaining(args, start) < old(Remaining(args, start))
      ensures over ==> code == -1 && (argv.Length > 0 ==> Finished(Cfg(), args, start, argv[..], optind, seen))
    {
      hide Scan, Finished, Split, StepAt, Left, Chars, Stored, Ahead;
      code, p, over := -1, Parsed(-1, None, None, None, None, 0, ""), true;
      if argv.Length < 1 { return; }
      optarg := None;
      BetweenBounds(Cfg(), args, start, argv[..], optind, firstNonopt, lastNonopt, nextchar, seen);
      if optind == 0 || !initialized { Initialize(args, start); }
      LeftNone(args[optind..]);
      if nextchar != "" {
        code, p := NextCharacter(args, start, seen);
        over := false;
      } else {
        code, p, over := FromElement(args, start, seen);
      }
    }

    /** The rest of _getopt_internal_r, between two elements. */
    method FromElement(ghost args: seq<string>, ghost start: nat, ghost seen: seq<Parsed>)
      returns (code: int, ghost p: Parsed, ghost over: bool)
      requires Scanning(args, start, seen) && nextchar == "" && optarg == None
      requires start <= |args| && Ahead(Cfg(), args, start, seen)
      modifies this, argv
      ensures !over ==>
        && initialized && Scanning(args, start, seen + [p]) && code == p.code
        && Stored(p, old(optopt), old(longind), old(flags))
        && old(optind) <= optind <= |args| && Left(nextchar, args[optind..]) < Left("", args[old(optind)..])
      ensures over ==> code == -1 && start <= |args| && Finished(Cfg(), args, start, argv[..], optind, seen)
    {
      hide Scan, Finished, Split, StepAt, Left, Chars, Stored, Ahead;
      BetweenBounds(Cfg(), args, start, argv[..], optind, firstNonopt, lastNonopt, nextchar, seen);
      ghost var tail, at := args[optind..], optind;
      LeftNone(tail);
      var done := Advance(args, start, seen);
      if done { return -1, Parsed(-1, None, None, None, None, 0, ""), true; }
      assert tail[optind - at..] == args[optind..];
      CharsDrop(tail, optind - at);
      code, p, over := NextElement(args, start, seen);
    }

    /** A caller that asks until the answer is -1. It always gets there. If no option is reported
        as -1, argv then holds the options with their arguments before the non-options,
        optind is at the first of these, and the reports are those of the scan that moves
        nothing; otherwise, and only then, the caller stops too early, at the first such
        report. */
    method GetAll() returns (codes: seq<int>, ghost seen: seq<Parsed>)
      requires !initialized && (argv.Length > 0 ==> optind <= argv.Length)
      requires argv.Length > 0 ==> Askable(Scan(Cfg(), "", argv[if optind == 0 then 1 else optind..]))
      modifies this, argv
      ensures |codes| == |seen| && forall i | 0 <= i < |codes| :: codes[i] == seen[i].code
      ensures argv.Length > 0 ==>
        var args, start := old(argv[..]), if old(optind) == 0 then 1 else old(optind);
        var events := Scan(Cfg(), "", args[start..]).events;
        && Told(seen) && (Finished(Cfg(), args, start, argv[..], optind, seen) <==> Told(events))
        && (!Told(events) ==> |seen| < |events| && events[|seen|].code == -1 && Scanning(args, start, events[..|seen| + 1]))
    {
      hide Split, Stored, Scan;
      ghost var args, start := argv[..], if optind == 0 then 1 else optind;
      codes, seen := [], [];
      while true
        invariant Valid(args, start, seen) && |codes| == |seen| && Told(seen)
        invariant forall i | 0 <= i < |codes| :: codes[i] == seen[i].code
        decreases Remaining(args, start)
      {
        var code;
        ghost var p, over;
        SeenFirst(Cfg(), args, start, argv[..], optind, firstNonopt, lastNonopt, nextchar, seen);
        if argv.Length > 0 { AskableAhead(Cfg(), args, start, seen); }
        code, p, over := GetNext(args, start, seen);
        if code == -1 {
          SeenFirst(Cfg(), args, start, argv[..], optind, firstNonopt, lastNonopt, nextchar, seen + [p]);
          if argv.Length > 0 { StopsAt(Cfg(), args, start, argv[..], optind, seen, p, over); }
          break;
        }
        codes, seen := codes + [code], seen + [p];
      }
    }
  }

  /** What the caller finds in argv: the program name, then the arguments split into options
      and non-options without any change of order among either. */
  lemma FinishedSplits(cfg: Config, args: seq<string>, start: nat, cur: seq<string>, optind: nat, seen: seq<Parsed>)
    requires start <= |args| && Finished(cfg, args, start, cur, optind, seen)
    ensures start <= optind <= |cur| == |args| && cur[..start] == args[..start]
    ensures Merges(args[start..], cur[start..optind], cur[optind..])
    ensures multiset(cur) == multiset(args)
  {
    hide Scan;
    var s := Scan(cfg, "", args[start..]);
    ScanMerges(cfg, "", args[start..]);
    MergesCount(args[start..], s.opts, s.nonopts);
    hide Merges;
    ThreeParts(args[..start], s.opts, s.nonopts);
    assert args == args[..start] + args[start..];
    SumOf(args[..start], args[start..]);
  }

  lemma ThreeParts(a: seq<string>, b: seq<string>, c: seq<string>)
    ensures var s := a + b + c;
      && |s| == |a| + |b| + |c| && s[..|a|] == a && s[|a|..|a| + |b|] == b && s[|a| + |b|..] == c
      && multiset(s) == multiset(a) + (multiset(b) + multiset(c))
  {
    assert a + b + c == a + (b + c);
  }

  lemma SumOf(a: seq<string>, b: seq<string>)
    ensures multiset(a + b) == multiset(a) + multiset(b)
  {
  }

  lemma {:induction false} MergesCount(all: seq<string>, opts: seq<string>, nonopts: seq<string>)
    requires Merges(all, opts, nonopts)
    ensures multiset(all) == multiset(opts) + multiset(nonopts) && |all| == |opts| + |nonopts|
  {
    if all != [] {
      assert all == [all[0]] + all[1..];
      if opts != [] && opts[0] == all[0] && Merges(all[1..], opts[1..], nonopts) {
        MergesCount(all[1..], opts[1..], nonopts);
        assert opts == [opts[0]] + opts[1..];
      } else {
        MergesCount(all[1..], opts, nonopts[1..]);
        assert nonopts == [nonopts[0]] + nonopts[1..];
      }
    }
  }

  lemma LeftNone(tail: seq<string>)
    ensures Left("", tail) == Chars(tail)
  {
  }

  /** A non-option that is reported in its place. */
  lemma NonoptionReported(cfg: Config, tail: seq<string>)
    requires tail != [] && !IsOption(tail[0]) && cfg.ordering.ReturnInOrder?
    ensures tail[..1] == [tail[0]] && Left("", tail[1..]) < Chars(tail)
    ensures Scan(cfg, "", tail) ==
      Before(tail[..1], [], [Parsed(1, Some(tail[0]), None, None, None, 1, "")], Scan(cfg, "", tail[1..]))
  {
    ScanNonoption(cfg, tail);
    LeftNone(tail[1..]);
    hide Scan;
  }

  lemma StepShort(cfg: Config, chars: string, tail: seq<string>)
    requires tail != [] && (chars != "" || (IsOption(tail[0]) && !Undefined(cfg, tail)))
    ensures StepAt(cfg, chars, tail) == if chars != "" then ShortStep(cfg, chars, tail, None) else OptionStep(cfg, tail)
  {
  }

  lemma BetweenBounds(cfg: Config, args: seq<string>, start: nat, cur: seq<string>, optind: nat, first: nat, last: nat,
                      chars: string, seen: seq<Parsed>)
    ensures Split(cfg, args, start, cur, optind, first, last, chars, seen) ==>
      && |cur| == |args| && start <= first <= last <= optind <= |args| && cur[optind..] == args[optind..]
      && (chars != "" ==> optind < |args|) && (!cfg.ordering.Permute? ==> first == last)
  {
  }
}
