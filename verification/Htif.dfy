/** The HTIF print loop of one hart against a host
    (riescue/dtest_framework/lib/rvmodel_macros_htif.h, RVMODEL_IO_WRITE_STR), instruction by instruction. */
module Htif {
  import opened Bits

  /** (1 << 56) | (1 << 48), the console device and its putchar command. */
  const PUTCHAR: nat := 0x0101_0000_0000_0000

  /** The address of the tohost word. */
  const TOHOST: nat := 0x7000_0000

  /** The instruction about to be executed. Fault: a load or store outside the memory modelled. */
  datatype Pc = Lbu | Beqz | Li | OrChar | La | Ld | Bnez | Sd | Addi | Jump | Exit | Fault

  /** The host reads tohost, and on a nonzero word clears it and acts on it, in either order. */
  datatype Host = Idle | Busy(word: nat, cleared: bool, done: bool)

  /** ptr: the string pointer register; log: the words the host has acted on. */
  datatype State = State(pc: Pc, r1: nat, r2: nat, r3: nat, ptr: nat, tohost: nat, host: Host, log: seq<nat>)

  datatype Actor = Hart | Poll | Clear | Act

  function HartStep(mem: seq<nat>, s: State): State {
    match s.pc
    case Lbu => if s.ptr < |mem| then s.(r1 := mem[s.ptr], pc := Beqz) else s.(pc := Fault)
    case Beqz => s.(pc := if s.r1 == 0 then Exit else Li)
    case Li => s.(r2 := PUTCHAR, pc := OrChar)
    case OrChar => s.(r1 := Or(s.r1, s.r2), pc := La)
    case La => s.(r2 := TOHOST, pc := Ld)
    case Ld => if s.r2 == TOHOST then s.(r3 := s.tohost, pc := Bnez) else s.(pc := Fault)
    case Bnez => s.(pc := if s.r3 != 0 then Ld else Sd)
    case Sd => if s.r2 == TOHOST then s.(tohost := s.r1, pc := Addi) else s.(pc := Fault)
    case Addi => s.(ptr := s.ptr + 1, pc := Jump)
    case Jump => s.(pc := Lbu)
    case _ => s
  }

  function Finish(h: Host): Host
    requires h.Busy?
  {
    if h.cleared && h.done then Idle else h
  }

  function Step(mem: seq<nat>, s: State, a: Actor): State {
    match a
    case Hart => HartStep(mem, s)
    case Poll => if s.host == Idle && s.tohost != 0 then s.(host := Busy(s.tohost, false, false)) else s
    case Clear =>
      if s.host.Busy? && !s.host.cleared then s.(tohost := 0, host := Finish(s.host.(cleared := true))) else s
    case Act =>
      if s.host.Busy? && !s.host.done then s.(log := s.log + [s.host.word], host := Finish(s.host.(done := true)))
        else s
  }

  /** The state after the first n steps of an interleaving. */
  function Run(mem: seq<nat>, s: State, trace: seq<Actor>, n: nat): State
    requires n <= |trace|
  {
    if n == 0 then s else Step(mem, Run(mem, s, trace, n - 1), trace[n - 1])
  }

  /** The bytes of a null-terminated string at address `start`. */
  predicate IsString(mem: seq<nat>, start: nat, text: seq<nat>) {
    && start + |text| < |mem| && mem[start + |text|] == 0
    && forall i :: 0 <= i < |text| ==> mem[start + i] == text[i] && 0 < text[i] < 256
  }

  function Command(c: nat): nat { PUTCHAR + c }

  function Commands(text: seq<nat>): (r: seq<nat>)
    ensures |r| == |text|
  {
    seq(|text|, i requires 0 <= i < |text| => Command(text[i]))
  }

  /** What the host has acted on or still will: its log, the word it holds, and the word waiting in tohost. */
  function Output(s: State): seq<nat> {
    s.log
    + (if s.host.Busy? && !s.host.done then [s.host.word] else [])
    + (if s.tohost != 0 && !(s.host.Busy? && !s.host.cleared) then [s.tohost] else [])
  }

  ghost predicate HostOk(s: State) {
    s.host.Busy? ==>
      && s.host.word != 0 && !(s.host.cleared && s.host.done)
      && (!s.host.cleared ==> s.tohost == s.host.word)
  }

  /** How many characters the hart has stored. */
  function Sent(s: State, start: nat): int { s.ptr - start + if s.pc == Addi then 1 else 0 }

  /** Where the hart is, its registers hold what the loop needs there; at the store tohost is empty. */
  ghost predicate HartOk(s: State, start: nat, text: seq<nat>) {
    && s.pc != Fault && start <= s.ptr
    && 0 <= Sent(s, start) <= |text|
    && (s.pc == Beqz ==> s.r1 == if s.ptr - start < |text| then text[s.ptr - start] else 0)
    && (s.pc == Exit ==> Sent(s, start) == |text|)
    && (s.pc == Li || s.pc == OrChar || InStore(s.pc) ==> s.ptr - start < |text|)
    && (s.pc == Li || s.pc == OrChar ==> s.r1 == text[s.ptr - start])
    && (s.pc == OrChar ==> s.r2 == PUTCHAR)
    && (InStore(s.pc) ==> s.r1 == Command(text[s.ptr - start]) && (s.pc != La ==> s.r2 == TOHOST))
    && ((s.pc == Bnez && s.r3 == 0) || s.pc == Sd ==> s.tohost == 0)
  }

  predicate InStore(pc: Pc) { pc == La || pc == Ld || pc == Bnez || pc == Sd }

  /** The protocol: whatever was pending at first, then a prefix of the string, each character once and in order. */
  ghost predicate Inv(s: State, start: nat, text: seq<nat>, before: seq<nat>) {
    HostOk(s) && HartOk(s, start, text) && Output(s) == before + Commands(text[..Sent(s, start)])
  }

  lemma {:induction false} ShlIsMul(x: nat, n: nat)
    ensures Shl(x, n) == x * Pow2(n)
  {
    if n > 0 { ShlIsMul(x, n - 1); }
  }

  /** Or-ing a byte into the command word adds it. */
  lemma OrIsCommand(c: nat)
    requires c < 256
    ensures Or(c, PUTCHAR) == Command(c)
  {
    Pow2Values();
    Pow2Order(8, 48);
    Pow2Small();
    ShlIsMul(0x0101, 48);
    OrShifted(c, 48, 0x0101);
  }

  /** The host takes a word for a character to print by its device and command bytes. */
  predicate IsPutchar(word: nat) { word / 0x100_0000_0000_0000 == 1 && word / 0x1_0000_0000_0000 % 0x100 == 1 }

  /** The characters the host has printed for these words. */
  function Printed(words: seq<nat>): seq<nat> {
    if words == [] then []
    else
      var last := words[|words| - 1];
      Printed(words[..|words| - 1]) + if IsPutchar(last) then [last % 0x100] else []
  }

  /** The host finds the character, the command and the device in the word. */
  lemma CommandDecodes(c: nat)
    requires c < 256
    ensures IsPutchar(Command(c)) && Command(c) % 0x100 == c
  {}

  /** Device and command are those two words' bytes alone, and the character is the lowest byte: the words printed are
      the 2^48 from the bare command on. */
  lemma PrintedIff(word: nat)
    ensures Printed([word]) ==
            if PUTCHAR <= word < PUTCHAR + 0x1_0000_0000_0000 then [(word - PUTCHAR) % 0x100] else []
  {
    assert [word][..0] == [];
    var top, rest := word / 0x1_0000_0000_0000, word % 0x1_0000_0000_0000;
    assert word == 0x1_0000_0000_0000 * top + rest;
    assert word / 0x100_0000_0000_0000 == top / 0x100;
    assert IsPutchar(word) <==> top == 0x101;
    assert (word - PUTCHAR) % 0x100 == word % 0x100;
  }

  /** A string's commands print the string, after what was printed before. */
  lemma {:induction false} CommandsPrint(before: seq<nat>, text: seq<nat>)
    requires forall i :: 0 <= i < |text| ==> text[i] < 256
    ensures Printed(before + Commands(text)) == Printed(before) + text
  {
    if text == [] {
      assert before + Commands(text) == before;
    } else {
      var w, last := text[..|text| - 1], text[|text| - 1];
      CommandsPrint(before, w);
      CommandDecodes(last);
      var words := before + Commands(text);
      assert words[..|words| - 1] == before + Commands(w) && words[|words| - 1] == Command(last);
      assert text == w + [last];
    }
  }

  lemma CommandsSnoc(text: seq<nat>, n: nat)
    requires n < |text|
    ensures Commands(text[..n + 1]) == Commands(text[..n]) + [Command(text[n])]
  {}

  lemma HartKeeps(mem: seq<nat>, s: State, start: nat, text: seq<nat>, before: seq<nat>)
    requires IsString(mem, start, text) && Inv(s, start, text, before)
    ensures Inv(HartStep(mem, s), start, text, before)
  {
    if s.pc == OrChar {
      OrIsCommand(s.r1);
    } else if s.pc == Sd {
      CommandsSnoc(text, s.ptr - start);
      assert Output(HartStep(mem, s)) == Output(s) + [s.r1];
    } else {
      assert Output(HartStep(mem, s)) == Output(s);
    }
  }

  lemma HostKeeps(mem: seq<nat>, s: State, a: Actor, start: nat, text: seq<nat>, before: seq<nat>)
    requires Inv(s, start, text, before) && a != Hart
    ensures Inv(Step(mem, s, a), start, text, before)
  {
    assert Output(Step(mem, s, a)) == Output(s);
  }

  /** A hart about to start printing, the host in any state of its own. */
  ghost predicate Start(mem: seq<nat>, s: State, text: seq<nat>) {
    IsString(mem, s.ptr, text) && s.pc == Lbu && HostOk(s)
  }

  lemma {:induction false} Invariant(mem: seq<nat>, s: State, text: seq<nat>, trace: seq<Actor>, n: nat)
    requires Start(mem, s, text) && n <= |trace|
    ensures Inv(Run(mem, s, trace, n), s.ptr, text, Output(s))
  {
    if n > 0 {
      Invariant(mem, s, text, trace, n - 1);
      var t := Run(mem, s, trace, n - 1);
      if trace[n - 1] == Hart {
        HartKeeps(mem, t, s.ptr, text, Output(s));
      } else {
        HostKeeps(mem, t, trace[n - 1], s.ptr, text, Output(s));
      }
    } else {
      assert Commands(text[..0]) == [];
    }
  }

  /** Under every interleaving: what the host has acted on or will is what was pending before and then a prefix of
      the string, in order; no word is overwritten before the host took it; and when the hart exits the whole string
      has been written exactly once, so that an idle host has printed it after what was pending. */
  lemma PrintProtocol(mem: seq<nat>, s: State, text: seq<nat>, trace: seq<Actor>, n: nat)
    requires Start(mem, s, text) && n <= |trace|
    ensures var t := Run(mem, s, trace, n);
            && t.pc != Fault
            && t.log <= Output(t) <= Output(s) + Commands(text)
            && (t.pc == Sd ==> t.tohost == 0 && !(t.host.Busy? && !t.host.cleared))
            && (t.pc == Exit ==> Output(t) == Output(s) + Commands(text))
            && (t.pc == Exit && t.tohost == 0 && t.host == Idle ==>
                  t.log == Output(s) + Commands(text) && Printed(t.log) == Printed(Output(s)) + text)
  {
    Invariant(mem, s, text, trace, n);
    var t := Run(mem, s, trace, n);
    var sent := Sent(t, s.ptr);
    assert Commands(text[..sent]) == Commands(text)[..sent];
    assert text[..|text|] == text;
    CommandsPrint(Output(s), text);
  }

  // ---------------------------------------------------------------------------------------------
  // The loop cannot get stuck: from every reachable state some schedule leads to the exit.

  function Rank(s: State): nat {
    match s.pc
    case Jump => 11
    case Lbu => 10
    case Beqz => 9
    case Li => 8
    case OrChar => 7
    case La => 6
    case Bnez => if s.r3 != 0 then 5 else 3
    case Ld => 4
    case Sd => 2
    case Addi => 1
    case _ => 0
  }

  /** The work the host has before tohost is empty. */
  function HostWork(s: State): nat {
    if s.tohost == 0 then 0
    else match s.host
      case Idle => 2
      case Busy(_, cleared, _) => if cleared then 3 else 1
  }

  /** The step that makes progress: the hart's own, unless it waits for the host. */
  function Useful(s: State): Actor {
    if s.pc != Ld || s.tohost == 0 then Hart
    else match s.host
      case Idle => Poll
      case Busy(_, cleared, _) => if cleared then Act else Clear
  }

  lemma HartProgress(mem: seq<nat>, s: State, start: nat, text: seq<nat>)
    requires IsString(mem, start, text) && HartOk(s, start, text) && s.pc != Exit && Useful(s) == Hart
    ensures var next := HartStep(mem, s);
            next.ptr > s.ptr || (next.ptr == s.ptr && Rank(next) < Rank(s))
  {}

  lemma HostProgress(mem: seq<nat>, s: State)
    requires HostOk(s) && Useful(s) != Hart
    ensures var next := Step(mem, s, Useful(s));
            next.ptr == s.ptr && Rank(next) == Rank(s) && HostWork(next) < HostWork(s)
  {}

  lemma {:induction false} CanFinish(mem: seq<nat>, s: State, start: nat, text: seq<nat>, before: seq<nat>)
    returns (trace: seq<Actor>)
    requires IsString(mem, start, text) && Inv(s, start, text, before)
    ensures Run(mem, s, trace, |trace|).pc == Exit
    decreases start + |text| - s.ptr, Rank(s), HostWork(s)
  {
    if s.pc == Exit { return []; }
    var a := Useful(s);
    var next := Step(mem, s, a);
    if a == Hart {
      HartProgress(mem, s, start, text);
      HartKeeps(mem, s, start, text, before);
    } else {
      HostProgress(mem, s);
      HostKeeps(mem, s, a, start, text, before);
    }
    var rest := CanFinish(mem, next, start, text, before);
    trace := [a] + rest;
    RunAfter(mem, s, a, rest, |rest|);
  }

  lemma {:induction false} RunAfter(mem: seq<nat>, s: State, a: Actor, rest: seq<Actor>, n: nat)
    requires n <= |rest|
    ensures Run(mem, s, [a] + rest, n + 1) == Run(mem, Step(mem, s, a), rest, n)
  {
    if n > 0 { RunAfter(mem, s, a, rest, n - 1); }
  }
}
