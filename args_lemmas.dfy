/**
 * Properties of the command-line scan: where it stops, when it starts the
 * multiplexer and with which values, and which tokens it ignores.
 */
module ArgsLemmas {
  import opened Options
  import opened Args

  /** The token at `k` sets flag `f`. */
  predicate SetsAt(args: seq<string>, p: Parsers, k: nat, f: Flag)
    requires k < |args|
  {
    Examine(args, k, p).Set? && Examine(args, k, p).flag == f
  }

  /** Some token at index `i` or later sets flag `f`. */
  ghost predicate SetFrom(args: seq<string>, p: Parsers, i: nat, f: Flag) {
    exists k :: i <= k < |args| && SetsAt(args, p, k, f)
  }

  /** No token at index `i` or later asks for help or is rejected. */
  ghost predicate NoStopFrom(args: seq<string>, p: Parsers, i: nat) {
    forall k :: i <= k < |args| ==> !Stops(Examine(args, k, p))
  }

  /** Some token at index `i` or later asks for help or is rejected. */
  ghost predicate StopFrom(args: seq<string>, p: Parsers, i: nat) {
    exists k :: i <= k < |args| && Stops(Examine(args, k, p))
  }

  /** The scan's verdict on a token that stops it. */
  function StopOutcome(a: Action): Outcome
    requires Stops(a)
  {
    if a.Help? then ShowHelp else Rejected(a.flag, a.error)
  }

  predicate ValidSlots(slots: Slots) {
    && (slots.tcpPort.Some? ==> slots.tcpPort.value > 0)
    && (slots.udpPort.Some? ==> slots.udpPort.value > 0)
    && (slots.tcpAddr.Some? ==> slots.tcpAddr.value.V4?)
    && (slots.udpAddr.Some? ==> slots.udpAddr.value.V4?)
  }

  /** A value that is set is of the flag's kind and passed validation. */
  lemma ExamineSetIsValid(args: seq<string>, i: nat, p: Parsers)
    requires i < |args| && Examine(args, i, p).Set?
    ensures var a := Examine(args, i, p);
      && a.flag.IsPort() == a.value.Port?
      && (a.value.Port? ==> a.value.port > 0)
      && (a.value.Addr? ==> a.value.addr.V4?)
  {
  }

  lemma {:induction false} GetStore(slots: Slots, f: Flag, v: Value, g: Flag)
    requires f.IsPort() == v.Port?
    ensures Get(Store(slots, f, v), g) == if g == f then Some(v) else Get(slots, g)
  {
  }

  /** The final check starts exactly when all four slots hold a value, and passes those values on. */
  lemma FinishSpec(slots: Slots)
    ensures !Finish(slots).ShowHelp? && !Finish(slots).Rejected?
    ensures Finish(slots).Start? <==> forall f :: Get(slots, f).Some?
    ensures Finish(slots).Start? ==> forall f :: Get(slots, f) == Some(ConfigValue(Finish(slots).config, f))
  {
    if !Finish(slots).Start? {
      var f :| f in [TcpPort, UdpPort, TcpAddr, UdpAddr] && Get(slots, f).None?;
    }
  }

  // ---- the scan from index i with given slots ----

  lemma {:induction false} ScanFromStopsAtFirst(args: seq<string>, p: Parsers, i: nat, slots: Slots, k: nat)
    requires 1 <= i <= k < |args|
    requires Stops(Examine(args, k, p))
    requires forall j :: i <= j < k ==> !Stops(Examine(args, j, p))
    ensures ScanFrom(args, i, slots, p) == StopOutcome(Examine(args, k, p))
    decreases k - i
  {
    if i < k {
      match Examine(args, i, p)
      case Skip => ScanFromStopsAtFirst(args, p, i + 1, slots, k);
      case Set(f, v) => ScanFromStopsAtFirst(args, p, i + 1, Store(slots, f, v), k);
    }
  }

  lemma {:induction false} ScanFromHaltsIff(args: seq<string>, p: Parsers, i: nat, slots: Slots)
    requires i <= |args|
    ensures ScanFrom(args, i, slots, p).ShowHelp? || ScanFrom(args, i, slots, p).Rejected?
      <==> StopFrom(args, p, i)
    decreases |args| - i
  {
    if i == |args| {
      FinishSpec(slots);
    } else {
      var a := Examine(args, i, p);
      if !Stops(a) {
        ScanFromHaltsIff(args, p, i + 1, if a.Set? then Store(slots, a.flag, a.value) else slots);
        if StopFrom(args, p, i) {
          var k :| i <= k < |args| && Stops(Examine(args, k, p));
          assert k != i;
        }
      }
    }
  }

  lemma {:induction false} ScanFromStartIff(args: seq<string>, p: Parsers, i: nat, slots: Slots)
    requires i <= |args|
    requires NoStopFrom(args, p, i)
    ensures ScanFrom(args, i, slots, p).Start? <==> forall f :: Get(slots, f).Some? || SetFrom(args, p, i, f)
    decreases |args| - i
  {
    if i == |args| {
      FinishSpec(slots);
    } else {
      var a := Examine(args, i, p);
      var next := if a.Set? then Store(slots, a.flag, a.value) else slots;
      ScanFromStartIff(args, p, i + 1, next);
      forall f ensures (Get(next, f).Some? || SetFrom(args, p, i + 1, f)) == (Get(slots, f).Some? || SetFrom(args, p, i, f)) {
        if SetFrom(args, p, i, f) && !SetFrom(args, p, i + 1, f) {
          var k :| i <= k < |args| && SetsAt(args, p, k, f);
          assert k == i;
        }
        if SetFrom(args, p, i + 1, f) {
          var k :| i + 1 <= k < |args| && SetsAt(args, p, k, f);
          assert i <= k;
        }
        if a.Set? {
          ExamineSetIsValid(args, i, p);
          GetStore(slots, a.flag, a.value, f);
          if f == a.flag {
            assert SetsAt(args, p, i, f);
          }
        }
      }
    }
  }

  lemma {:induction false} ScanFromUnset(args: seq<string>, p: Parsers, i: nat, slots: Slots, f: Flag)
    requires i <= |args|
    requires NoStopFrom(args, p, i)
    requires forall k :: i <= k < |args| ==> !SetsAt(args, p, k, f)
    requires ScanFrom(args, i, slots, p).Start?
    ensures Get(slots, f) == Some(ConfigValue(ScanFrom(args, i, slots, p).config, f))
    decreases |args| - i
  {
    if i == |args| {
      FinishSpec(slots);
    } else {
      var a := Examine(args, i, p);
      var next := if a.Set? then Store(slots, a.flag, a.value) else slots;
      assert !SetsAt(args, p, i, f) && !Stops(a);
      ScanFromUnset(args, p, i + 1, next, f);
      if a.Set? {
        ExamineSetIsValid(args, i, p);
        GetStore(slots, a.flag, a.value, f);
      }
    }
  }

  lemma {:induction false} ScanFromLastWins(args: seq<string>, p: Parsers, i: nat, slots: Slots, f: Flag, k: nat)
    requires i <= k < |args|
    requires NoStopFrom(args, p, i)
    requires SetsAt(args, p, k, f)
    requires forall j :: k < j < |args| ==> !SetsAt(args, p, j, f)
    requires ScanFrom(args, i, slots, p).Start?
    ensures ConfigValue(ScanFrom(args, i, slots, p).config, f) == Examine(args, k, p).value
    decreases k - i
  {
    var a := Examine(args, i, p);
    var next := if a.Set? then Store(slots, a.flag, a.value) else slots;
    if i < k {
      ScanFromLastWins(args, p, i + 1, next, f, k);
    } else {
      ExamineSetIsValid(args, i, p);
      ScanFromUnset(args, p, i + 1, next, f);
      GetStore(slots, a.flag, a.value, f);
    }
  }

  lemma {:induction false} ScanFromValid(args: seq<string>, p: Parsers, i: nat, slots: Slots)
    requires i <= |args|
    requires ValidSlots(slots)
    requires ScanFrom(args, i, slots, p).Start?
    ensures var cfg := ScanFrom(args, i, slots, p).config;
      cfg.tcpPort > 0 && cfg.udpPort > 0 && cfg.tcpAddr.V4? && cfg.udpAddr.V4?
    decreases |args| - i
  {
    if i < |args| {
      var a := Examine(args, i, p);
      if a.Set? {
        ExamineSetIsValid(args, i, p);
        ScanFromValid(args, p, i + 1, Store(slots, a.flag, a.value));
      } else {
        ScanFromValid(args, p, i + 1, slots);
      }
    }
  }

  // ---- the whole scan ----

  /**
   * The scan ends at the first token that asks for help or is invalid
   * (a value-taking flag with no value, a port that is not an integer or
   * is 0, an address that does not parse or is not IPv4), and that token
   * alone decides the outcome: later tokens are never looked at.
   */
  lemma ScanStopsAtFirst(args: seq<string>, p: Parsers, k: nat)
    requires 1 <= k < |args|
    requires Stops(Examine(args, k, p))
    requires forall j :: 1 <= j < k ==> !Stops(Examine(args, j, p))
    ensures Scan(args, p) == StopOutcome(Examine(args, k, p))
  {
    ScanFromStopsAtFirst(args, p, 1, NoSlots, k);
  }

  /**
   * The scan shows help or rejects the command line exactly when there are
   * fewer than two arguments (then it shows help) or some argument stops it.
   */
  lemma ScanHaltsIff(args: seq<string>, p: Parsers)
    ensures |args| < 2 ==> Scan(args, p) == ShowHelp
    ensures Scan(args, p).ShowHelp? || Scan(args, p).Rejected? <==> |args| < 2 || StopFrom(args, p, 1)
  {
    if |args| >= 2 {
      ScanFromHaltsIff(args, p, 1, NoSlots);
    }
  }

  /**
   * The multiplexer is started exactly when no argument stops the scan and
   * each of the four flags is set at least once.
   */
  lemma ScanStartIff(args: seq<string>, p: Parsers)
    ensures Scan(args, p).Start? <==>
      |args| >= 2 && NoStopFrom(args, p, 1) && forall f :: SetFrom(args, p, 1, f)
  {
    if |args| >= 2 {
      if NoStopFrom(args, p, 1) {
        ScanFromStartIff(args, p, 1, NoSlots);
      } else {
        ScanFromHaltsIff(args, p, 1, NoSlots);
      }
    }
  }

  /** Each flag's value passed to the multiplexer is the one given at its last occurrence. */
  lemma ScanLastOccurrenceWins(args: seq<string>, p: Parsers, f: Flag, k: nat)
    requires Scan(args, p).Start?
    requires 1 <= k < |args| && SetsAt(args, p, k, f)
    requires forall j :: k < j < |args| ==> !SetsAt(args, p, j, f)
    ensures ConfigValue(Scan(args, p).config, f) == Examine(args, k, p).value
  {
    ScanStartIff(args, p);
    ScanFromLastWins(args, p, 1, NoSlots, f, k);
  }

  /** The multiplexer is only ever started with non-zero ports and IPv4 addresses. */
  lemma ScanStartIsValid(args: seq<string>, p: Parsers)
    requires Scan(args, p).Start?
    ensures var cfg := Scan(args, p).config;
      cfg.tcpPort > 0 && cfg.udpPort > 0 && cfg.tcpAddr.V4? && cfg.udpAddr.V4?
  {
    ScanFromValid(args, p, 1, NoSlots);
  }

  // ---- unknown tokens ----

  /** A token's action depends only on the token, the next one, and whether there is a next one. */
  lemma ExamineLocal(a: seq<string>, i: nat, b: seq<string>, j: nat, p: Parsers)
    requires i < |a| && j < |b| && a[i] == b[j]
    requires (i + 1 < |a|) == (j + 1 < |b|)
    requires i + 1 < |a| ==> a[i + 1] == b[j + 1]
    ensures Examine(a, i, p) == Examine(b, j, p)
  {
  }

  /** Past the inserted token, the scan of the longer line runs one index behind the original. */
  lemma {:induction false} ScanShifted(args: seq<string>, p: Parsers, k: nat, u: string, j: nat, slots: Slots)
    requires k <= j <= |args|
    ensures var longer := args[..k] + [u] + args[k..];
      ScanFrom(longer, j + 1, slots, p) == ScanFrom(args, j, slots, p)
    decreases |args| - j
  {
    var longer := args[..k] + [u] + args[k..];
    if j < |args| {
      assert longer[j + 1] == args[j];
      assert j + 1 < |args| ==> longer[j + 2] == args[j + 1];
      ExamineLocal(longer, j + 1, args, j, p);
      match Examine(args, j, p)
      case Skip => ScanShifted(args, p, k, u, j + 1, slots);
      case Set(f, v) => ScanShifted(args, p, k, u, j + 1, Store(slots, f, v));
      case Help =>
      case Reject(_, _) =>
    }
  }

  /** Before the inserted token, both lines are scanned alike. */
  lemma {:induction false} ScanBeforeInsert(args: seq<string>, p: Parsers, k: nat, u: string, j: nat, slots: Slots)
    requires 1 <= j <= k <= |args|
    requires u != "-h" && FlagOf(u).None?
    requires FlagOf(args[k - 1]).None?
    ensures var longer := args[..k] + [u] + args[k..];
      ScanFrom(longer, j, slots, p) == ScanFrom(args, j, slots, p)
    decreases k - j
  {
    var longer := args[..k] + [u] + args[k..];
    if j == k {
      assert longer[k] == u;
      ScanShifted(args, p, k, u, k, slots);
    } else {
      assert longer[j] == args[j];
      if j + 1 < k {
        assert longer[j + 1] == args[j + 1];
        ExamineLocal(longer, j, args, j, p);
      } else {
        assert j == k - 1 && FlagOf(args[j]).None?;
      }
      assert Examine(longer, j, p) == Examine(args, j, p);
      match Examine(args, j, p)
      case Skip => ScanBeforeInsert(args, p, k, u, j + 1, slots);
      case Set(f, v) => ScanBeforeInsert(args, p, k, u, j + 1, Store(slots, f, v));
      case Help =>
      case Reject(_, _) =>
    }
  }

  /**
   * Inserting a token that is neither `-h` nor a value-taking flag, at any
   * place after the program name where it is not read as a flag's value,
   * does not change the outcome: unknown tokens are skipped.
   */
  lemma UnknownTokenIgnored(args: seq<string>, p: Parsers, k: nat, u: string)
    requires 2 <= |args| && 1 <= k <= |args|
    requires u != "-h" && FlagOf(u).None?
    requires FlagOf(args[k - 1]).None? || k == 1
    ensures Scan(args[..k] + [u] + args[k..], p) == Scan(args, p)
  {
    var longer := args[..k] + [u] + args[k..];
    if k == 1 {
      ScanShifted(args, p, 1, u, 1, NoSlots);
      assert longer[1] == u;
    } else {
      ScanBeforeInsert(args, p, k, u, 1, NoSlots);
    }
  }
}
