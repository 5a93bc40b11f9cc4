/** The batch fetcher's driver (`domain_analyzer.py`): read the domain
    list, then for each domain in order pick a key, fetch with retries, save
    a truthy document or skip, and wait 30 seconds before the next domain. */
module DomainAnalyzer {
  import opened Wrappers
  import opened PyStr
  import opened KeyRotation
  import opened Retry

  /** Seconds waited between two domains. */
  const DomainDelay := 30

  /** The comprehension of `read_domains`: every line stripped, blank ones
      dropped. */
  function KeepNonBlank(lines: seq<string>): (r: seq<string>)
    ensures |r| <= |lines|
  {
    if lines == [] then []
    else
      var s := Strip(lines[0]);
      (if s != "" then [s] else []) + KeepNonBlank(lines[1..])
  }

  /** `read_domains` on the text of an existing file. */
  function ReadDomains(text: string): seq<string>
  {
    KeepNonBlank(Lines(text))
  }

  /** Only non-empty, already stripped strings come out. */
  lemma {:induction false} KeepNonBlankClean(lines: seq<string>)
    ensures forall k :: 0 <= k < |KeepNonBlank(lines)| ==>
      KeepNonBlank(lines)[k] != "" && Strip(KeepNonBlank(lines)[k]) == KeepNonBlank(lines)[k]
  {
    if lines != [] {
      KeepNonBlankClean(lines[1..]);
      StripIdempotent(lines[0]);
    }
  }

  /** The filter keeps the order of the lines: it works line by line. */
  lemma {:induction false} KeepNonBlankAppend(a: seq<string>, b: seq<string>)
    ensures KeepNonBlank(a + b) == KeepNonBlank(a) + KeepNonBlank(b)
  {
    if a == [] {
      assert a + b == b;
    } else {
      var s := Strip(a[0]);
      assert (a + b)[0] == a[0] && (a + b)[1..] == a[1..] + b;
      assert KeepNonBlank(a + b) == (if s != "" then [s] else []) + KeepNonBlank(a[1..] + b);
      KeepNonBlankAppend(a[1..], b);
    }
  }

  /** One line: kept, stripped, exactly when it is not blank. */
  lemma KeepNonBlankLine(line: string)
    ensures KeepNonBlank([line]) == if Strip(line) == "" then [] else [Strip(line)]
  {
    assert [line][1..] == [];
  }

  /** Lines that are already stripped and not empty are kept as they are. */
  lemma {:induction false} KeepNonBlankKeepsStripped(lines: seq<string>)
    requires forall k :: 0 <= k < |lines| ==> lines[k] != "" && Strip(lines[k]) == lines[k]
    ensures KeepNonBlank(lines) == lines
  {
    if lines != [] {
      KeepNonBlankKeepsStripped(lines[1..]);
    }
  }

  /** The key request i uses; the pool is not empty. */
  function KeyFor(keys: seq<string>, i: nat): string
    requires keys != []
  {
    SelectApiKey(i, keys).value
  }

  /** The fetch for the domain at position i. */
  function FetchFor(domains: seq<string>, keys: seq<string>, oracle: nat -> Attempts, i: nat): FetchRun
    requires i < |domains| && keys != []
  {
    Fetch(domains[i], KeyFor(keys, i), oracle(i), MaxRetries)
  }

  /** The fetches of a whole run, one per domain; none when the pool is
      empty, since then no request is made. */
  function Runs(domains: seq<string>, keys: seq<string>, oracle: nat -> Attempts): seq<FetchRun>
  {
    if keys == [] then []
    else seq(|domains|, i requires 0 <= i < |domains| => FetchFor(domains, keys, oracle, i))
  }

  /** `if data: save ... else: skip`. */
  function Verdict(domain: string, data: Option<Json>): Event
  {
    if data.Some? && Truthy(data.value) then Save(domain, data.value) else Skip(domain)
  }

  /** The wait after domain i: none after the last one. */
  function Pause(domains: seq<string>, i: nat): seq<Event>
  {
    if i < |domains| - 1 then [Sleep(DomainDelay)] else []
  }

  /** What the driver does for the domain at position i, given the fetches. */
  function StepOf(domains: seq<string>, runs: seq<FetchRun>, i: nat): seq<Event>
    requires i < |domains| && i < |runs|
  {
    runs[i].trace + [Verdict(domains[i], runs[i].data)] + Pause(domains, i)
  }

  /** The steps for the first m domains, in list order, given the fetches. */
  function StepsOf(domains: seq<string>, runs: seq<FetchRun>, m: nat): seq<Event>
    requires m <= |domains| && m <= |runs|
  {
    if m == 0 then [] else StepsOf(domains, runs, m - 1) + StepOf(domains, runs, m - 1)
  }

  /** What the driver does for the domain at position i. */
  function DomainStep(domains: seq<string>, keys: seq<string>, oracle: nat -> Attempts, i: nat): seq<Event>
    requires i < |domains| && keys != []
  {
    StepOf(domains, Runs(domains, keys, oracle), i)
  }

  /** The steps for the first m domains. */
  function Steps(domains: seq<string>, keys: seq<string>, oracle: nat -> Attempts, m: nat): seq<Event>
    requires m <= |domains| && (m == 0 || keys != [])
  {
    StepsOf(domains, Runs(domains, keys, oracle), m)
  }

  /** The `for i, domain in enumerate(domains)` loop of `main`. With an
      empty pool the first key selection raises and the run crashes before
      any request. */
  method ProcessDomains(domains: seq<string>, keys: seq<string>, oracle: nat -> Attempts)
    returns (crashed: bool, trace: seq<Event>)
    ensures crashed <==> domains != [] && keys == []
    ensures crashed ==> trace == []
    ensures !crashed ==> trace == Steps(domains, keys, oracle, |domains|)
  {
    trace := [];
    for i := 0 to |domains|
      invariant i == 0 || keys != []
      invariant trace == Steps(domains, keys, oracle, i)
    {
      var selected := SelectApiKey(i, keys);
      if selected.Failure? {
        crashed := true;
        return;
      }
      var key := selected.value;
      var data, attempts := MakeRequestWithRetry(domains[i], key, oracle(i), MaxRetries);
      var step := attempts;
      if data.Some? && Truthy(data.value) {
        step := step + [Save(domains[i], data.value)];
      } else {
        step := step + [Skip(domains[i])];
      }
      if i < |domains| - 1 {
        step := step + [Sleep(DomainDelay)];
      }
      assert Runs(domains, keys, oracle)[i] == FetchRun(data, attempts);
      assert step == DomainStep(domains, keys, oracle, i);
      trace := trace + step;
    }
    crashed := false;
  }

  /** How a run of the script ends: `sys.exit(1)`, an uncaught exception
      (status 1 too) or normal completion (status 0). */
  function ExitCode(completed: bool): int {
    if completed then 0 else 1
  }

  /** `main()`: `argv` is `sys.argv` (the script name first), `files` gives
      the text of each readable file and nothing for a missing one. */
  method RunAnalyzer(argv: seq<string>, files: string -> Option<string>, keys: seq<string>, oracle: nat -> Attempts)
    returns (exitCode: int, trace: seq<Event>)
    ensures |argv| != 2 ==> exitCode == 1 && trace == []
    ensures |argv| == 2 && files(argv[1]).None? ==> exitCode == 1 && trace == [CreateDirectory]
    ensures |argv| == 2 && files(argv[1]).Some? && ReadDomains(files(argv[1]).value) == [] ==>
      exitCode == 1 && trace == [CreateDirectory]
    ensures |argv| == 2 && files(argv[1]).Some? && ReadDomains(files(argv[1]).value) != [] ==>
      var domains := ReadDomains(files(argv[1]).value);
      && (keys == [] ==> exitCode == 1 && trace == [CreateDirectory])
      && (keys != [] ==> exitCode == 0 && trace == [CreateDirectory] + Steps(domains, keys, oracle, |domains|))
  {
    if |argv| != 2 {
      return ExitCode(false), [];
    }
    trace := [CreateDirectory];
    var text := files(argv[1]);
    if text.None? {
      return ExitCode(false), trace;
    }
    var domains := ReadDomains(text.value);
    if domains == [] {
      return ExitCode(false), trace;
    }
    var crashed, steps := ProcessDomains(domains, keys, oracle);
    trace := trace + steps;
    exitCode := ExitCode(!crashed);
  }

  /** The domains that received a verdict (saved or skipped), in order. */
  function Verdicts(t: seq<Event>): seq<string>
  {
    if t == [] then []
    else Verdicts(t[..|t| - 1]) + (if t[|t| - 1].Save? || t[|t| - 1].Skip? then [t[|t| - 1].domain] else [])
  }

  lemma {:induction false} VerdictsAppend(a: seq<Event>, b: seq<Event>)
    ensures Verdicts(a + b) == Verdicts(a) + Verdicts(b)
  {
    if b != [] {
      assert (a + b)[..|a + b| - 1] == a + b[..|b| - 1];
      VerdictsAppend(a, b[..|b| - 1]);
    } else {
      assert a + b == a;
    }
  }

  lemma VerdictsSingle(e: Event)
    ensures Verdicts([e]) == if e.Save? || e.Skip? then [e.domain] else []
  {
    assert [e][..0] == [];
  }

  /** An event trace with no save or skip in it has no verdicts. */
  lemma {:induction false} NoVerdicts(t: seq<Event>)
    requires forall e :: e in t ==> !e.Save? && !e.Skip?
    ensures Verdicts(t) == []
  {
    if t != [] {
      NoVerdicts(t[..|t| - 1]);
    }
  }

  /** The attempts of a fetch are neither saves nor skips, nor 30-second
      waits. */
  predicate FetchEventsOnly(runs: seq<FetchRun>) {
    forall i, e :: 0 <= i < |runs| && e in runs[i].trace ==> e.Attempt? || e == Sleep(RetryDelay)
  }

  /** The fetches of a run are the fetches `make_request_with_retry` makes
      for each domain with the key selected for it. */
  lemma RunsAreFetches(domains: seq<string>, keys: seq<string>, oracle: nat -> Attempts)
    requires keys != []
    ensures |Runs(domains, keys, oracle)| == |domains|
    ensures forall i :: 0 <= i < |domains| ==> Runs(domains, keys, oracle)[i] == FetchFor(domains, keys, oracle, i)
    ensures FetchEventsOnly(Runs(domains, keys, oracle))
  {
    var runs := Runs(domains, keys, oracle);
    forall i, e | 0 <= i < |runs| && e in runs[i].trace
      ensures e.Attempt? || e == Sleep(RetryDelay)
    {
      TriesEvents(domains[i], KeyFor(keys, i), AttemptsMade(oracle(i), MaxRetries));
    }
  }

  /** Attempts, one verdict and a pause hold that one verdict. */
  lemma VerdictOfStep(run: seq<Event>, verdict: Event, pause: seq<Event>)
    requires forall e :: e in run ==> !e.Save? && !e.Skip?
    requires forall e :: e in pause ==> !e.Save? && !e.Skip?
    requires verdict.Save? || verdict.Skip?
    ensures Verdicts(run + [verdict] + pause) == [verdict.domain]
  {
    NoVerdicts(run);
    NoVerdicts(pause);
    VerdictsAppend(run + [verdict], pause);
    VerdictsAppend(run, [verdict]);
    VerdictsSingle(verdict);
  }

  /** Each domain gets exactly one verdict, whatever the fetches did. */
  lemma StepOfVerdict(domains: seq<string>, runs: seq<FetchRun>, i: nat)
    requires i < |domains| && i < |runs| && FetchEventsOnly(runs)
    ensures Verdicts(StepOf(domains, runs, i)) == [domains[i]]
  {
    assert forall e :: e in runs[i].trace ==> e.Attempt? || e == Sleep(RetryDelay);
    VerdictOfStep(runs[i].trace, Verdict(domains[i], runs[i].data), Pause(domains, i));
  }

  /** Each domain gets exactly one verdict. */
  lemma StepVerdict(domains: seq<string>, keys: seq<string>, oracle: nat -> Attempts, i: nat)
    requires i < |domains| && keys != []
    ensures Verdicts(DomainStep(domains, keys, oracle, i)) == [domains[i]]
  {
    RunsAreFetches(domains, keys, oracle);
    StepOfVerdict(domains, Runs(domains, keys, oracle), i);
  }

  /** The step for domain i saves, and saves the fetched document, exactly
      when that document is truthy (an empty object or list is skipped like
      a failure). */
  lemma StepSavesIffTruthy(domains: seq<string>, keys: seq<string>, oracle: nat -> Attempts, i: nat)
    requires i < |domains| && keys != []
    ensures var data := FetchFor(domains, keys, oracle, i).data;
      (data.Some? && Truthy(data.value)) <==> (data.Some? && Save(domains[i], data.value) in DomainStep(domains, keys, oracle, i))
    ensures (exists e :: e in DomainStep(domains, keys, oracle, i) && e.Save?) ==>
      var data := FetchFor(domains, keys, oracle, i).data;
      data.Some? && Truthy(data.value)
  {
    RunsAreFetches(domains, keys, oracle);
    var runs := Runs(domains, keys, oracle);
    assert forall e :: e in runs[i].trace ==> e.Attempt? || e == Sleep(RetryDelay);
    SaveOfStep(runs[i].trace, Verdict(domains[i], runs[i].data), Pause(domains, i));
  }

  /** Attempts, one verdict and a pause: the only save is the verdict. */
  lemma SaveOfStep(run: seq<Event>, verdict: Event, pause: seq<Event>)
    requires forall e :: e in run ==> e.Attempt? || e == Sleep(RetryDelay)
    requires forall e :: e in pause ==> e.Sleep?
    ensures forall e :: e in run + [verdict] + pause && e.Save? ==> e == verdict
  {
  }

  /** Appending a step with one verdict extends the verdicts by it. */
  lemma VerdictsSnoc(prev: seq<Event>, step: seq<Event>, domains: seq<string>, m: nat)
    requires 0 < m <= |domains|
    requires Verdicts(prev) == domains[..m - 1] && Verdicts(step) == [domains[m - 1]]
    ensures Verdicts(prev + step) == domains[..m]
  {
    VerdictsAppend(prev, step);
    assert domains[..m - 1] + [domains[m - 1]] == domains[..m];
  }

  /** The step for each position, as a function. */
  function StepAt(domains: seq<string>, runs: seq<FetchRun>): nat -> seq<Event>
  {
    (i: nat) => if i < |domains| && i < |runs| then StepOf(domains, runs, i) else []
  }

  /** The first m steps of any step function, one after the other. */
  function Concat(step: nat -> seq<Event>, m: nat): seq<Event>
  {
    if m == 0 then [] else Concat(step, m - 1) + step(m - 1)
  }

  lemma {:induction false} StepsOfConcat(domains: seq<string>, runs: seq<FetchRun>, m: nat)
    requires m <= |domains| && m <= |runs|
    ensures StepsOf(domains, runs, m) == Concat(StepAt(domains, runs), m)
  {
    if m > 0 {
      StepsOfConcat(domains, runs, m - 1);
      assert StepAt(domains, runs)(m - 1) == StepOf(domains, runs, m - 1);
    }
  }

  /** Steps that each hold the verdict on their own domain give the domains
      in order. */
  lemma {:induction false} ConcatInOrder(step: nat -> seq<Event>, ds: seq<string>, m: nat)
    requires m <= |ds|
    requires forall i :: 0 <= i < m ==> Verdicts(step(i)) == [ds[i]]
    ensures Verdicts(Concat(step, m)) == ds[..m]
  {
    if m > 0 {
      ConcatInOrder(step, ds, m - 1);
      VerdictsSnoc(Concat(step, m - 1), step(m - 1), ds, m);
    }
  }

  lemma StepsOfInOrder(domains: seq<string>, runs: seq<FetchRun>, m: nat)
    requires m <= |domains| && m <= |runs|
    requires forall i :: 0 <= i < m ==> Verdicts(StepOf(domains, runs, i)) == [domains[i]]
    ensures Verdicts(StepsOf(domains, runs, m)) == domains[..m]
  {
    var step := StepAt(domains, runs);
    StepsOfConcat(domains, runs, m);
    forall i | 0 <= i < m
      ensures Verdicts(step(i)) == [domains[i]]
    {
      assert step(i) == StepOf(domains, runs, i);
    }
    ConcatInOrder(step, domains, m);
  }

  /** Domains are handled in list order: the verdicts of the first m steps
      are the first m domains. */
  lemma StepsInOrder(domains: seq<string>, keys: seq<string>, oracle: nat -> Attempts, m: nat)
    requires m <= |domains| && keys != []
    ensures Verdicts(Steps(domains, keys, oracle, m)) == domains[..m]
  {
    RunsAreFetches(domains, keys, oracle);
    var runs := Runs(domains, keys, oracle);
    forall i | 0 <= i < m
      ensures Verdicts(StepOf(domains, runs, i)) == [domains[i]]
    {
      StepOfVerdict(domains, runs, i);
    }
    StepsOfInOrder(domains, runs, m);
  }

  /** Every request for domain i is made with the key chosen for index i. */
  lemma StepUsesSelectedKey(domains: seq<string>, keys: seq<string>, oracle: nat -> Attempts, i: nat)
    requires i < |domains| && keys != []
    ensures forall e :: e in DomainStep(domains, keys, oracle, i) && e.Attempt? ==>
      e.domain == domains[i] && Success(e.key) == SelectApiKey(i, keys)
  {
    RunsAreFetches(domains, keys, oracle);
    TriesEvents(domains[i], KeyFor(keys, i), AttemptsMade(oracle(i), MaxRetries));
  }

  /** The number of waits of the given length in a trace. */
  function SleepCount(t: seq<Event>, seconds: nat): nat
  {
    if t == [] then 0
    else SleepCount(t[..|t| - 1], seconds) + (if t[|t| - 1] == Sleep(seconds) then 1 else 0)
  }

  lemma {:induction false} SleepCountAppend(a: seq<Event>, b: seq<Event>, seconds: nat)
    ensures SleepCount(a + b, seconds) == SleepCount(a, seconds) + SleepCount(b, seconds)
  {
    if b != [] {
      assert (a + b)[..|a + b| - 1] == a + b[..|b| - 1];
      SleepCountAppend(a, b[..|b| - 1], seconds);
    } else {
      assert a + b == a;
    }
  }

  lemma {:induction false} SleepCountNone(t: seq<Event>, seconds: nat)
    requires Sleep(seconds) !in t
    ensures SleepCount(t, seconds) == 0
  {
    if t != [] {
      SleepCountNone(t[..|t| - 1], seconds);
    }
  }

  lemma SleepCountSingle(e: Event, seconds: nat)
    ensures SleepCount([e], seconds) == if e == Sleep(seconds) then 1 else 0
  {
    assert [e][..0] == [];
  }

  /** Counting the 30-second waits of one step. */
  lemma DomainSleepsOfStep(run: seq<Event>, verdict: Event, pause: seq<Event>)
    requires Sleep(DomainDelay) !in run && !verdict.Sleep?
    ensures SleepCount(run + [verdict] + pause, DomainDelay) == SleepCount(pause, DomainDelay)
  {
    SleepCountAppend(run + [verdict], pause, DomainDelay);
    SleepCountAppend(run, [verdict], DomainDelay);
    SleepCountNone(run, DomainDelay);
    SleepCountSingle(verdict, DomainDelay);
  }

  /** One step holds one 30-second wait, or none for the last domain. */
  lemma StepOfSleeps(domains: seq<string>, runs: seq<FetchRun>, i: nat)
    requires i < |domains| && i < |runs| && FetchEventsOnly(runs)
    ensures SleepCount(StepOf(domains, runs, i), DomainDelay) == if i < |domains| - 1 then 1 else 0
  {
    assert forall e :: e in runs[i].trace ==> e.Attempt? || e == Sleep(RetryDelay);
    DomainSleepsOfStep(runs[i].trace, Verdict(domains[i], runs[i].data), Pause(domains, i));
    SleepCountSingle(Sleep(DomainDelay), DomainDelay);
  }

  lemma {:induction false} StepsOfSleeps(domains: seq<string>, runs: seq<FetchRun>, m: nat)
    requires m <= |domains| && m <= |runs| && FetchEventsOnly(runs)
    ensures SleepCount(StepsOf(domains, runs, m), DomainDelay) == if m == |domains| && m > 0 then m - 1 else m
  {
    if m > 0 {
      var prev, step := StepsOf(domains, runs, m - 1), StepOf(domains, runs, m - 1);
      StepsOfSleeps(domains, runs, m - 1);
      StepOfSleeps(domains, runs, m - 1);
      SleepCountAppend(prev, step, DomainDelay);
      assert StepsOf(domains, runs, m) == prev + step;
    }
  }

  /** A 30-second wait follows every domain but the last: m steps hold
      m - 1 of them, or m when the last domain is not among them. */
  lemma StepsDomainSleeps(domains: seq<string>, keys: seq<string>, oracle: nat -> Attempts, m: nat)
    requires m <= |domains| && keys != []
    ensures SleepCount(Steps(domains, keys, oracle, m), DomainDelay)
      == if m == |domains| && m > 0 then m - 1 else m
  {
    RunsAreFetches(domains, keys, oracle);
    StepsOfSleeps(domains, Runs(domains, keys, oracle), m);
  }

  /** The run ends with the verdict on the last domain: no wait after it. */
  lemma StepsEndWithLastVerdict(domains: seq<string>, keys: seq<string>, oracle: nat -> Attempts)
    requires domains != [] && keys != []
    ensures var t := Steps(domains, keys, oracle, |domains|);
      t != [] && (t[|t| - 1].Save? || t[|t| - 1].Skip?) && t[|t| - 1].domain == domains[|domains| - 1]
  {
  }

  /** The first domain of the scenario below: saved after one attempt,
      then the wait. */
  lemma ScenarioFirstStep(keys: seq<string>, oracle: nat -> Attempts, body: Json)
    requires keys != [] && Truthy(body)
    requires forall k: nat :: oracle(0)(k) == Response(200, body)
    ensures DomainStep(["a.com", "b.com"], keys, oracle, 0)
      == [Attempt("a.com", KeyFor(keys, 0), 0), Save("a.com", body), Sleep(DomainDelay)]
  {
    var domains := ["a.com", "b.com"];
    assert Runs(domains, keys, oracle)[0] == FetchFor(domains, keys, oracle, 0);
    FirstSuccessReturnsBody("a.com", KeyFor(keys, 0), oracle(0), MaxRetries, 0);
    assert Tries("a.com", KeyFor(keys, 0), 1) == [Attempt("a.com", KeyFor(keys, 0), 0)];
  }

  /** The second domain of the scenario below: skipped after all attempts,
      and no wait. */
  lemma ScenarioSecondStep(keys: seq<string>, oracle: nat -> Attempts)
    requires keys != []
    requires forall k: nat :: oracle(1)(k) == Response(500, JNull)
    ensures DomainStep(["a.com", "b.com"], keys, oracle, 1)
      == Tries("b.com", KeyFor(keys, 1), MaxRetries) + [Skip("b.com")]
  {
    var domains := ["a.com", "b.com"];
    assert Runs(domains, keys, oracle)[1] == FetchFor(domains, keys, oracle, 1);
    AllFailuresReturnNothing("b.com", KeyFor(keys, 1), oracle(1), MaxRetries);
  }

  /** Two domains, the first answered 200 with a truthy body at once, the
      second 500 on every attempt: the first is saved after one attempt and
      a 30-second wait follows, the second is skipped after all 20 attempts
      and nothing follows. */
  lemma TwoDomainScenario(keys: seq<string>, oracle: nat -> Attempts, body: Json)
    requires keys != [] && Truthy(body)
    requires forall k: nat :: oracle(0)(k) == Response(200, body)
    requires forall k: nat :: oracle(1)(k) == Response(500, JNull)
    ensures Steps(["a.com", "b.com"], keys, oracle, 2)
      == [Attempt("a.com", KeyFor(keys, 0), 0), Save("a.com", body), Sleep(DomainDelay)]
         + Tries("b.com", KeyFor(keys, 1), MaxRetries) + [Skip("b.com")]
  {
    var domains := ["a.com", "b.com"];
    var runs := Runs(domains, keys, oracle);
    ScenarioFirstStep(keys, oracle, body);
    ScenarioSecondStep(keys, oracle);
    assert StepsOf(domains, runs, 1) == StepOf(domains, runs, 0);
    assert StepsOf(domains, runs, 2) == StepsOf(domains, runs, 1) + StepOf(domains, runs, 1);
  }
}
