/** What getopt reports for the forms in which options are written. */
module OptionLaws {
  import opened OptionSpec
  import opened Getopt

  // ----- Looking up a name -----

  /** The first option of that name is found; an abbreviation of one option only is too; one
      of two options that mean different things is ambiguous; anything else is unknown. */
  lemma LookupLaws(opts: seq<LongOpt>, key: string, longOnly: bool, i: nat)
    requires i < |opts|
    ensures opts[i].name == key && (forall j | 0 <= j < i :: opts[j].name != key) ==> LookupOf(opts, key, longOnly) == Match(i)
    ensures key <= opts[i].name && (forall j | 0 <= j < |opts| && j != i :: !(key <= opts[j].name)) ==>
      LookupOf(opts, key, longOnly) == Match(i)
    ensures forall j | 0 <= j < i && key < opts[j].name && key < opts[i].name && !(exists k :: 0 <= k < |opts| && opts[k].name == key) ::
      longOnly || (opts[j].hasArg, opts[j].flag, opts[j].val) != (opts[i].hasArg, opts[i].flag, opts[i].val) ==>
        LookupOf(opts, key, longOnly).Ambiguous?
    ensures (forall j | 0 <= j < |opts| :: !(key <= opts[j].name)) ==> LookupOf(opts, key, longOnly).NoMatch?
  {
    forall o: LongOpt ensures Abbreviates(key, o) <==> key <= o.name {}
  }

  // ----- Long options -----

  /** The element that gives the long option `name` the argument `v`. */
  function WithArgument(name: string, v: string): string { name + "=" + v }

  lemma NameEnds(name: string, v: string)
    requires '=' !in name
    ensures IndexOf(name, '=') == |name| && IndexOf(WithArgument(name, v), '=') == |name|
    ensures WithArgument(name, v)[..|name|] == name && WithArgument(name, v)[|name|..] == "=" + v && ("=" + v)[1..] == v
  {
    var s := WithArgument(name, v);
    assert s == name + ("=" + v);
    forall j | 0 <= j < |name| ensures s[j] != '=' && name[j] != '=' { assert s[j] == name[j] && name[j] in name; }
    FirstAt(s, '=', |name|);
    FirstAt(name, '=', |name|);
  }

  lemma FirstAt(s: string, c: char, k: nat)
    requires k <= |s| && (forall j | 0 <= j < k :: s[j] != c) && (k < |s| ==> s[k] == c)
    ensures IndexOf(s, c) == k
  {
  }

  /** What a long option without mistakes returns and stores. */
  ghost predicate Reports(p: Parsed, o: LongOpt, i: nat, arg: Option<string>) {
    && p.optarg == arg && p.optopt == None && p.index == Some(i)
    && (o.flag == 0 ==> p.code == o.val && p.stored == None)
    && (o.flag != 0 ==> p.code == 0 && p.stored == Some((o.flag, o.val)))
  }

  /** An option that takes an argument gets what is written after the first '='; one that
      requires it gets the next element where there is no '='. */
  lemma LongArguments(cfg: Config, opts: seq<LongOpt>, name: string, v: string, tail: seq<string>, longOnly: bool, i: nat)
    requires |tail| > 0 && '=' !in name && i < |opts| && LookupOf(opts, name, longOnly) == Match(i)
    ensures var l := LongStep(cfg, opts, WithArgument(name, v), tail, longOnly);
      opts[i].hasArg != 0 ==> l.Long? && Reports(l.p, opts[i], i, Some(v)) && l.p.taken == 1 && l.p.rest == ""
    ensures var l := LongStep(cfg, opts, name, tail, longOnly);
      && (opts[i].hasArg == 1 && |tail| > 1 ==>
            l.Long? && Reports(l.p, opts[i], i, Some(tail[1])) && l.p.taken == 2 && l.p.rest == "")
      && (opts[i].hasArg != 1 ==> l.Long? && Reports(l.p, opts[i], i, None) && l.p.taken == 1 && l.p.rest == "")
  {
    NameEnds(name, v);
    assert name[..|name|] == name && name[|name|..] == "";
    hide LookupOf, IndexOf;
  }

  /** The mistakes: an argument that is not taken, a missing one, and a name that is unknown or
      ambiguous. */
  lemma LongMistakes(cfg: Config, opts: seq<LongOpt>, name: string, v: string, tail: seq<string>, longOnly: bool)
    requires |tail| > 0 && '=' !in name
    ensures var l := LookupOf(opts, name, longOnly);
      var w, p := LongStep(cfg, opts, WithArgument(name, v), tail, longOnly), LongStep(cfg, opts, name, tail, longOnly);
      && (l.Match? && l.i < |opts| && opts[l.i].hasArg == 0 ==> w == Long(Parsed('?' as int, None, Some(opts[l.i].val), None, None, 1, "")))
      && (l.Match? && l.i < |opts| && opts[l.i].hasArg == 1 && |tail| == 1 ==>
            p == Long(Parsed(if cfg.optstring != "" && cfg.optstring[0] == ':' then ':' as int else '?' as int,
                             None, Some(opts[l.i].val), None, None, 1, "")))
      && (l.Ambiguous? || (l.NoMatch? && !longOnly) ==>
            p == w == Long(Parsed('?' as int, None, Some(0), None, None, 1, "")))
  {
    NameEnds(name, v);
    assert name[..|name|] == name && name[|name|..] == "";
    hide LookupOf, IndexOf;
  }

  // ----- Option characters -----

  /** The option character `c` takes an argument; it is `optional` with two colons. */
  predicate TakesArgument(cfg: Config, c: char, optional: bool) {
    var at := IndexOf(cfg.optstring, c);
    && c != ':' && c != ';' && at < |cfg.optstring| && at + 1 < |cfg.optstring| && cfg.optstring[at + 1] == ':'
    && (optional <==> at + 2 < |cfg.optstring| && cfg.optstring[at + 2] == ':')
  }

  /** The option character `c` takes none. */
  predicate TakesNone(cfg: Config, c: char) {
    var at := IndexOf(cfg.optstring, c);
    && c != ':' && c != ';' && at < |cfg.optstring|
    && (at + 1 < |cfg.optstring| ==>
          cfg.optstring[at + 1] != ':' && (c == 'W' && cfg.optstring[at + 1] == ';' ==> cfg.longopts == None))
  }

  /** An argument is what follows in the element, or else, if it is required, the next element. */
  lemma ShortArguments(cfg: Config, c: char, v: string, tail: seq<string>, optional: bool)
    requires |tail| > 0 && TakesArgument(cfg, c, optional)
    ensures v != "" ==> ShortStep(cfg, [c] + v, tail, None) == Parsed(c as int, Some(v), None, None, None, 1, "")
    ensures !optional && |tail| > 1 ==> ShortStep(cfg, [c], tail, None) == Parsed(c as int, Some(tail[1]), None, None, None, 2, "")
    ensures optional ==> ShortStep(cfg, [c], tail, None) == Parsed(c as int, None, None, None, None, 1, "")
    ensures !optional && |tail| == 1 ==>
      ShortStep(cfg, [c], tail, None) ==
        Parsed(if cfg.optstring[0] == ':' then ':' as int else '?' as int, None, Some(c as int), None, None, 1, "")
  {
    assert ([c] + v)[0] == c && ([c] + v)[1..] == v && [c][1..] == "";
  }

  /** A character without argument leaves the rest of the element to the next call; so does an
      unknown one, which is reported as '?' and in optopt. */
  lemma ShortAlone(cfg: Config, c: char, more: string, tail: seq<string>)
    requires |tail| > 0
    ensures var done := if more == "" then 1 else 0;
      && (TakesNone(cfg, c) ==> ShortStep(cfg, [c] + more, tail, None) == Parsed(c as int, None, None, None, None, done, more))
      && (c !in cfg.optstring || c == ':' || c == ';' ==>
            ShortStep(cfg, [c] + more, tail, None) == Parsed('?' as int, None, Some(c as int), None, None, done, more))
  {
    assert ([c] + more)[0] == c && ([c] + more)[1..] == more;
    forall j | 0 <= j < |cfg.optstring| ensures cfg.optstring[j] in cfg.optstring {}
  }

  // ----- In a scan -----

  /** What a report tells the caller, apart from the elements it used up. */
  predicate SameReport(p: Parsed, q: Parsed) { p == q.(taken := p.taken) }

  lemma LongElement(cfg: Config, text: string, rest: seq<string>)
    requires cfg.longopts.Some? && text != ""
    ensures var tail := ["--" + text] + rest; var l := LongStep(cfg, cfg.longopts.value, text, tail, cfg.longOnly);
      && tail[0] != "--" && l.Long? && l.p.taken <= |tail| && l.p.rest == ""
      && Scan(cfg, "", tail) == Before(tail[..l.p.taken], [], [l.p], Scan(cfg, "", tail[l.p.taken..]))
  {
    var e := "--" + text;
    var tail := [e] + rest;
    assert e[0] == '-' && e[1] == '-' && e[2..] == text && |e| > 2;
    LongStepTaken(cfg, cfg.longopts.value, text, tail, cfg.longOnly);
    hide LongStep;
    ScanOption(cfg, "", tail);
  }

  /** --name=v is reported with the argument v, for every option that takes one; for one that
      requires it, the two elements --name and v are reported alike. The scan then goes on
      with the elements after them. */
  lemma LongScan(cfg: Config, name: string, v: string, rest: seq<string>, i: nat)
    requires cfg.longopts.Some? && '=' !in name && i < |cfg.longopts.value|
    requires LookupOf(cfg.longopts.value, name, cfg.longOnly) == Match(i) && cfg.longopts.value[i].hasArg != 0
    ensures var s := Scan(cfg, "", ["--" + WithArgument(name, v)] + rest);
      && s.events != [] && Reports(s.events[0], cfg.longopts.value[i], i, Some(v)) && s.events[1..] == Scan(cfg, "", rest).events
      && (name != "" && cfg.longopts.value[i].hasArg == 1 ==>
            var s' := Scan(cfg, "", ["--" + name, v] + rest);
            && s'.events != [] && SameReport(s.events[0], s'.events[0]) && s'.events[1..] == s.events[1..]
            && s'.opts == ["--" + name, v] + Scan(cfg, "", rest).opts)
  {
    hide LongStep, LookupOf, Scan;
    var opts := cfg.longopts.value;
    var one, two := ["--" + WithArgument(name, v)] + rest, ["--" + name, v] + rest;
    LongArguments(cfg, opts, name, v, one, cfg.longOnly, i);
    LongArguments(cfg, opts, name, v, two, cfg.longOnly, i);
    LongElement(cfg, WithArgument(name, v), rest);
    assert one[1..] == rest;
    if name != "" && opts[i].hasArg == 1 {
      assert two == ["--" + name] + ([v] + rest);
      LongElement(cfg, name, [v] + rest);
      assert two[2..] == rest && two[..2] == ["--" + name, v];
    }
  }

  /** Without long_only an element with one dash is scanned by its characters. */
  lemma ShortElement(cfg: Config, c: char, more: string, rest: seq<string>)
    requires c != '-' && (!cfg.longOnly || cfg.longopts == None)
    ensures var tail := [['-', c] + more] + rest; var p := ShortStep(cfg, [c] + more, tail, None);
      p.taken <= |tail| && Scan(cfg, "", tail) == Before(tail[..p.taken], [], [p], Scan(cfg, p.rest, tail[p.taken..]))
  {
    var e := ['-', c] + more;
    var tail := [e] + rest;
    assert e[0] == '-' && e[1] == c && e[1..] == [c] + more && e != "--";
    hide ShortStep;
    ScanOption(cfg, "", tail);
  }

  /** -cv and the two elements -c and v are reported alike, with the argument v. */
  lemma ShortScan(cfg: Config, c: char, v: string, rest: seq<string>, optional: bool)
    requires c != '-' && (!cfg.longOnly || cfg.longopts == None) && TakesArgument(cfg, c, optional) && v != ""
    ensures var s := Scan(cfg, "", [['-', c] + v] + rest);
      && s.events == [Parsed(c as int, Some(v), None, None, None, 1, "")] + Scan(cfg, "", rest).events
      && (!optional ==>
            Scan(cfg, "", [['-', c], v] + rest).events ==
              [Parsed(c as int, Some(v), None, None, None, 2, "")] + Scan(cfg, "", rest).events)
  {
    hide ShortStep, Scan;
    var one, two := [['-', c] + v] + rest, [['-', c], v] + rest;
    ShortArguments(cfg, c, v, one, optional);
    ShortArguments(cfg, c, v, two, optional);
    ShortElement(cfg, c, v, rest);
    assert one[1..] == rest;
    assert ['-', c] + "" == ['-', c] && [c] + "" == [c];
    assert two == [['-', c] + ""] + ([v] + rest);
    ShortElement(cfg, c, "", [v] + rest);
    assert two[2..] == rest;
  }

  /** Characters without argument may share an element: -ab is reported as -a and -b. */
  lemma ShortTogether(cfg: Config, a: char, b: char, rest: seq<string>)
    requires a != '-' && b != '-' && (!cfg.longOnly || cfg.longopts == None) && TakesNone(cfg, a) && TakesNone(cfg, b)
    ensures Scan(cfg, "", [['-', a, b]] + rest).events ==
      [Parsed(a as int, None, None, None, None, 0, [b]), Parsed(b as int, None, None, None, None, 1, "")] + Scan(cfg, "", rest).events
    ensures Scan(cfg, "", [['-', a], ['-', b]] + rest).events ==
      [Parsed(a as int, None, None, None, None, 1, ""), Parsed(b as int, None, None, None, None, 1, "")] + Scan(cfg, "", rest).events
  {
    hide ShortStep, Scan;
    var one := [['-', a, b]] + rest;
    assert ['-', a] + [b] == ['-', a, b] && [a] + [b] == [a, b];
    assert one == [['-', a] + [b]] + rest;
    ShortElement(cfg, a, [b], rest);
    ShortAlone(cfg, a, [b], one);
    assert one[0..] == one && one[1..] == rest;
    ShortAlone(cfg, b, "", one);
    assert [b] + "" == [b];
    ScanOption(cfg, [b], one);
    OneAlone(cfg, b, rest);
    OneAlone(cfg, a, [['-', b]] + rest);
    assert [['-', a]] + ([['-', b]] + rest) == [['-', a], ['-', b]] + rest;
  }

  lemma OneAlone(cfg: Config, a: char, rest: seq<string>)
    requires a != '-' && (!cfg.longOnly || cfg.longopts == None) && TakesNone(cfg, a)
    ensures Scan(cfg, "", [['-', a]] + rest).events == [Parsed(a as int, None, None, None, None, 1, "")] + Scan(cfg, "", rest).events
  {
    hide ShortStep, Scan;
    var tail := [['-', a]] + rest;
    assert ['-', a] + "" == ['-', a] && [a] + "" == [a] && tail[1..] == rest;
    ShortElement(cfg, a, "", rest);
    ShortAlone(cfg, a, "", tail);
  }

  // ----- Other ways to write a long option -----

  /** A long option does not depend on the element it is written in, but on what follows. */
  lemma OnlyWhatFollows(cfg: Config, opts: seq<LongOpt>, text: string, tail: seq<string>, tail': seq<string>)
    requires |tail| > 0 && |tail'| > 0 && tail[1..] == tail'[1..]
    ensures LongStep(cfg, opts, text, tail, false) == LongStep(cfg, opts, text, tail', false)
  {
    assert |tail| == |tail'| && (|tail| > 1 ==> tail[1] == tail[1..][0] == tail'[1]);
  }

  /** With "W;" in the option string -Wtext, and -W text, are reported as --text is. */
  lemma WForm(cfg: Config, text: string, rest: seq<string>)
    requires cfg.longopts.Some? && !cfg.longOnly && text != ""
    requires var at := IndexOf(cfg.optstring, 'W'); at + 1 < |cfg.optstring| && cfg.optstring[at + 1] == ';'
    ensures var s := Scan(cfg, "", ["--" + text] + rest); var s1 := Scan(cfg, "", [['-', 'W'] + text] + rest);
      var s2 := Scan(cfg, "", [['-', 'W'], text] + rest);
      && s.events != [] && s1.events != [] && s2.events != []
      && SameReport(s.events[0], s1.events[0]) && SameReport(s.events[0], s2.events[0])
      && s1.events[1..] == s.events[1..] == s2.events[1..]
  {
    hide Scan, LongStep;
    var opts := cfg.longopts.value;
    var long, one, two := ["--" + text] + rest, [['-', 'W'] + text] + rest, [['-', 'W'], text] + rest;
    LongElement(cfg, text, rest);
    ShortElement(cfg, 'W', text, rest);
    assert ['-', 'W'] + "" == ['-', 'W'];
    assert two == [['-', 'W'] + ""] + ([text] + rest);
    ShortElement(cfg, 'W', "", [text] + rest);
    var l := LongStep(cfg, opts, text, long, false);
    assert one[1..] == rest == long[1..] && two[1..][1..] == rest;
    OnlyWhatFollows(cfg, opts, text, long, one);
    OnlyWhatFollows(cfg, opts, text, long, two[1..]);
    assert ShortStep(cfg, ['W'] + text, one, None) == l.p.(taken := 0 + l.p.taken) by { assert (['W'] + text)[1..] == text; }
    assert ['W'] + "" == ['W'] && ['W'][1..] == "";
    assert ShortStep(cfg, ['W'] + "", two, None) == l.p.(taken := 1 + l.p.taken);
    hide ShortStep;
    assert one[l.p.taken..] == long[l.p.taken..] by { Further(one, long, l.p.taken); }
    assert two[1 + l.p.taken..] == long[l.p.taken..] by {
      Further(two[1..], long, l.p.taken);
      assert two[1..][l.p.taken..] == two[1 + l.p.taken..];
    }
  }

  lemma Further(a: seq<string>, b: seq<string>, k: nat)
    requires 1 <= k <= |a| == |b| && a[1..] == b[1..]
    ensures a[k..] == b[k..]
  {
    assert a[k..] == a[1..][k - 1..] && b[k..] == b[1..][k - 1..];
  }

  /** With long_only -name is reported as --name is, if the option does not return -1. But a
      single character that is an option character stays one. */
  lemma LongOnlyForm(cfg: Config, name: string, rest: seq<string>, i: nat)
    requires cfg.longopts.Some? && cfg.longOnly && name != "" && name[0] != '-' && '=' !in name
    requires |name| > 1 || name[0] !in cfg.optstring
    requires i < |cfg.longopts.value| && LookupOf(cfg.longopts.value, name, true) == Match(i)
    requires cfg.longopts.value[i].flag != 0 || cfg.longopts.value[i].val != -1
    ensures var s, s1 := Scan(cfg, "", ["--" + name] + rest), Scan(cfg, "", [['-'] + name] + rest);
      && s.events != [] && s1.events != [] && SameReport(s.events[0], s1.events[0]) && s1.events[1..] == s.events[1..]
  {
    hide Scan, LookupOf;
    var opts, e := cfg.longopts.value, ['-'] + name;
    var long, one := ["--" + name] + rest, [e] + rest;
    LongElement(cfg, name, rest);
    var l := LongStep(cfg, opts, name, long, true);
    assert one[1..] == rest == long[1..] && e[1..] == name && e[1] == name[0];
    forall j | 0 <= j < |cfg.optstring| ensures cfg.optstring[j] in cfg.optstring {}
    assert TriesLong(cfg, e);
    NameEnds(name, "");
    assert name[..|name|] == name;
    assert l == LongStep(cfg, opts, name, one, true) && l.p.code != -1 by {
      assert |long| > 1 ==> long[1] == long[1..][0] == one[1];
    }
    hide LongStep;
    ScanOption(cfg, "", one);
    assert one[l.p.taken..] == long[l.p.taken..] by { Further(one, long, l.p.taken); }
  }

  lemma LongOnlyShort(cfg: Config, c: char, rest: seq<string>)
    requires c != '-' && c in cfg.optstring
    ensures var tail := [['-', c]] + rest; var p := ShortStep(cfg, [c], tail, None);
      p.taken <= |tail| && Scan(cfg, "", tail) == Before(tail[..p.taken], [], [p], Scan(cfg, p.rest, tail[p.taken..]))
  {
    var tail := [['-', c]] + rest;
    assert tail[0][1..] == [c];
    var at := IndexOf(cfg.optstring, c);
    var j :| 0 <= j < |cfg.optstring| && cfg.optstring[j] == c;
    assert at < |cfg.optstring|;
    hide ShortStep;
    ScanOption(cfg, "", tail);
  }

  // ----- The ordering modes -----

  /** What comes first, if it is no option: with '-' in front of the option string it is
      reported as the code 1, with '+', or with POSIXLY_CORRECT and no '-', it ends the scan,
      and otherwise it is left for after the options. */
  lemma OrderingModes(raw: string, o: string, posix: bool, longopts: Option<seq<LongOpt>>, longOnly: bool, word: string,
                      rest: seq<string>)
    requires !(|word| > 1 && word[0] == '-') && (o == "" || (o[0] != '-' && o[0] != '+'))
    ensures var cfg := Config(Body("-" + o), longopts, longOnly, OrderingOf("-" + o, posix));
      cfg.optstring == o && Scan(cfg, "", [word] + rest) ==
        Before([word], [], [Parsed(1, Some(word), None, None, None, 1, "")], Scan(cfg, "", rest))
    ensures var cfg := Config(Body("+" + o), longopts, longOnly, OrderingOf("+" + o, posix));
      cfg.optstring == o && Scan(cfg, "", [word] + rest) == Scanned([], [word] + rest, [], true)
    ensures var cfg := Config(Body(o), longopts, longOnly, OrderingOf(o, posix));
      && cfg.optstring == o
      && (posix ==> Scan(cfg, "", [word] + rest) == Scanned([], [word] + rest, [], true))
      && (!posix ==> Scan(cfg, "", [word] + rest) == Before([], [word], [], Scan(cfg, "", rest)))
  {
    assert ("-" + o)[0] == '-' && ("-" + o)[1..] == o && ("+" + o)[0] == '+' && ("+" + o)[1..] == o;
    var tail := [word] + rest;
    assert tail[0] == word && tail[1..] == rest && !IsOption(word);
    hide Scan;
    forall cfg: Config { ScanNonoption(cfg, tail); }
  }
}
