/** The one-place receive mailbox of the trace unit, shared with a debugger that fills it. */
module Itm {
  import opened Words

  /** The word that stands for an empty mailbox. */
  const EMPTY: Int32 := 0x5AA5_5AA5

  // ---- The functions on their own --------------------------------------------------------

  class Mailbox {
    var rxBuffer: Int32

    /** Empties the mailbox; -1 stands for nothing received. */
    method ReceiveChar() returns (ch: Int32)
      modifies this
      ensures ch == if old(rxBuffer) == EMPTY then -1 else old(rxBuffer)
      ensures rxBuffer == EMPTY
    {
      ch := -1;
      if rxBuffer != EMPTY {
        ch := rxBuffer;
        rxBuffer := EMPTY;
      }
    }

    method CheckChar() returns (r: Int32)
      ensures r == if rxBuffer == EMPTY then 0 else 1
    {
      if rxBuffer == EMPTY {
        r := 0;
      } else {
        r := 1;
      }
    }
  }

  // ---- The functions among the debugger's steps ------------------------------------------

  /** Where the reader stands inside ReceiveChar. */
  datatype Reader = Outside | FoundFull | HasRead(ch: Int32)

  /** The mailbox with its reader and writer, what was stored, what ReceiveChar took out, and every
      value it returned. */
  datatype State = State(buffer: Int32, reader: Reader, sawEmpty: bool,
                         sent: seq<Int32>, taken: seq<Int32>, returned: seq<Int32>)

  /** The reader's test, read and clear, and the writer's look and store. A step that is not due does
      nothing, so that every sequence of steps is a run. */
  datatype Step = Test | Read | Clear | Look | Store(ch: Int32)

  function Do(s: State, step: Step): State {
    match step
    case Test =>
      if s.reader != Outside then s
      else if s.buffer == EMPTY then s.(returned := s.returned + [-1])
      else s.(reader := FoundFull)
    case Read =>
      if s.reader == FoundFull then s.(reader := HasRead(s.buffer)) else s
    case Clear =>
      if s.reader.HasRead? then
        s.(buffer := EMPTY, reader := Outside, taken := s.taken + [s.reader.ch], returned := s.returned + [s.reader.ch])
      else s
    case Look =>
      if s.buffer == EMPTY then s.(sawEmpty := true) else s
    case Store(ch) =>
      if s.sawEmpty && ch != EMPTY then s.(buffer := ch, sawEmpty := false, sent := s.sent + [ch]) else s
  }

  function Run(s: State, steps: seq<Step>): State {
    if steps == [] then s else Do(Run(s, steps[..|steps| - 1]), steps[|steps| - 1])
  }

  const START := State(EMPTY, Outside, false, [], [], [])

  /** The characters among returned values, as a caller tells them from "nothing". */
  function Heard(values: seq<Int32>): seq<Int32> {
    if values == [] then []
    else Heard(values[..|values| - 1]) + if values[|values| - 1] == -1 then [] else [values[|values| - 1]]
  }

  ghost predicate Consistent(s: State) {
    && (s.sawEmpty ==> s.buffer == EMPTY)
    && (s.reader != Outside ==> s.buffer != EMPTY)
    && (s.reader.HasRead? ==> s.reader.ch == s.buffer)
    && s.sent == s.taken + (if s.buffer == EMPTY then [] else [s.buffer])
    && Heard(s.returned) == Heard(s.taken)
    && EMPTY !in s.sent
  }

  lemma HeardOne(values: seq<Int32>, v: Int32)
    ensures Heard(values + [v]) == Heard(values) + if v == -1 then [] else [v]
  {
    assert (values + [v])[..|values|] == values;
  }

  lemma DoConsistent(s: State, step: Step)
    requires Consistent(s)
    ensures Consistent(Do(s, step))
  {
    hide Heard;
    HeardOne(s.returned, -1);
    if s.reader.HasRead? {
      HeardOne(s.returned, s.reader.ch);
      HeardOne(s.taken, s.reader.ch);
    }
  }

  lemma {:induction false} RunConsistent(s: State, steps: seq<Step>)
    requires Consistent(s)
    ensures Consistent(Run(s, steps))
  {
    if steps != [] {
      RunConsistent(s, steps[..|steps| - 1]);
      DoConsistent(Run(s, steps[..|steps| - 1]), steps[|steps| - 1]);
    }
  }

  /** In every run the characters taken are the first of those sent, in order, each once, and at most
      one is still in the mailbox; it is empty exactly when all have been taken. */
  lemma TakenIsPrefix(steps: seq<Step>)
    ensures var s := Run(START, steps);
            && s.taken <= s.sent && |s.sent| <= |s.taken| + 1
            && (s.buffer == EMPTY <==> s.taken == s.sent)
  {
    RunConsistent(START, steps);
  }

  lemma {:induction false} HeardAll(values: seq<Int32>)
    ensures Heard(values) == values <==> -1 !in values
    ensures |Heard(values)| <= |values|
  {
    if values != [] {
      var before := values[..|values| - 1];
      HeardAll(before);
      assert values == before + [values[|values| - 1]];
      if values[|values| - 1] == -1 {
        assert |Heard(values)| < |values|;
      }
    }
  }

  /** What the caller hears is what was taken, but for the value that also means "nothing": it hears
      everything taken exactly when -1 was not among it. */
  lemma CallerHears(steps: seq<Step>)
    ensures var s := Run(START, steps);
            Heard(s.returned) == s.taken <==> -1 !in s.taken
  {
    RunConsistent(START, steps);
    HeardAll(Run(START, steps).taken);
  }

  /** The shortest run that loses a character. */
  lemma NotHeard()
    ensures var s := Run(START, [Look, Store(-1), Test, Read, Clear]);
            s.sent == s.taken == s.returned == [-1] && Heard(s.returned) == []
  {
    hide Do, Run;
    var steps := [Look, Store(-1), Test, Read, Clear];
    RunStep(START, steps, 0);
    RunStep(START, steps, 1);
    RunStep(START, steps, 2);
    RunStep(START, steps, 3);
    RunStep(START, steps, 4);
    assert steps[..5] == steps;
    LostSteps();
    HeardOne([], -1);
    assert [] + [-1] == [-1];
  }

  lemma RunStep(s: State, steps: seq<Step>, i: nat)
    requires i < |steps|
    ensures Run(s, steps[..0]) == s
    ensures Run(s, steps[..i + 1]) == Do(Run(s, steps[..i]), steps[i])
  {
    assert steps[..i + 1][..i] == steps[..i];
  }

  lemma LostSteps()
    ensures Do(Do(Do(Do(Do(START, Look), Store(-1)), Test), Read), Clear)
         == State(EMPTY, Outside, false, [-1], [-1], [-1])
  {
  }

  /** The writer stores characters of an alphabet only. */
  ghost predicate Within(steps: seq<Step>, chars: set<Int32>) {
    forall i | 0 <= i < |steps| :: steps[i].Store? ==> steps[i].ch in chars
  }

  lemma {:induction false} SentWithin(steps: seq<Step>, chars: set<Int32>)
    requires Within(steps, chars)
    ensures forall i | 0 <= i < |Run(START, steps).sent| :: Run(START, steps).sent[i] in chars
  {
    if steps != [] {
      SentWithin(steps[..|steps| - 1], chars);
    }
  }

  /** The caller hears all that is taken in every run over an alphabet exactly when -1 is not one of
      its characters. */
  lemma AlphabetHeard(chars: set<Int32>)
    ensures (forall steps | Within(steps, chars) :: Heard(Run(START, steps).returned) == Run(START, steps).taken)
       <==> -1 !in chars
  {
    hide Run;
    if -1 in chars {
      NotHeard();
      var steps := [Look, Store(-1), Test, Read, Clear];
      assert Within(steps, chars) && Run(START, steps).taken == [-1];
    } else {
      forall steps | Within(steps, chars) ensures Heard(Run(START, steps).returned) == Run(START, steps).taken {
        SentWithin(steps, chars);
        TakenIsPrefix(steps);
        CallerHears(steps);
      }
    }
  }

  // ---- One call among the writer's steps -------------------------------------------------

  ghost predicate WriterOnly(steps: seq<Step>) {
    forall i | 0 <= i < |steps| :: steps[i].Look? || steps[i].Store?
  }

  lemma {:induction false} RunAppend(s: State, first: seq<Step>, second: seq<Step>)
    ensures Run(s, first + second) == Run(Run(s, first), second)
  {
    if second == [] {
      assert first + second == first;
    } else {
      var before := second[..|second| - 1];
      RunAppend(s, first, before);
      assert (first + second)[..|first + second| - 1] == first + before;
    }
  }

  lemma RunOne(s: State, step: Step)
    ensures Run(s, [step]) == Do(s, step)
  {
    assert [step][..0] == [];
  }

  /** The writer does not touch the reader's side, nor a mailbox that is full: once CheckChar has
      answered 1, only the reader changes that. */
  lemma {:induction false} WriterWaits(s: State, steps: seq<Step>)
    requires Consistent(s) && WriterOnly(steps)
    ensures var u := Run(s, steps);
            && u.reader == s.reader && u.taken == s.taken && u.returned == s.returned
            && (s.buffer != EMPTY ==> u == s)
  {
    if steps != [] {
      WriterWaits(s, steps[..|steps| - 1]);
      RunConsistent(s, steps[..|steps| - 1]);
    }
  }

  /** Whatever the writer does between its steps, a call of ReceiveChar returns one value, fixed at its
      test: the character found there, or -1 if there was none. */
  lemma ReceiveIsAtomic(s: State, between: seq<Step>, later: seq<Step>)
    requires Consistent(s) && s.reader == Outside && WriterOnly(between) && WriterOnly(later)
    ensures var u := Run(s, [Test] + between + [Read] + later + [Clear]);
            && u.reader == Outside
            && u.returned == s.returned + [if s.buffer == EMPTY then -1 else s.buffer]
            && u.taken == s.taken + (if s.buffer == EMPTY then [] else [s.buffer])
            && (s.buffer != EMPTY ==> u.buffer == EMPTY && u.sent == s.sent)
  {
    hide Run;
    var s1 := Do(s, Test);
    var s2 := Run(s1, between);
    var s3 := Do(s2, Read);
    var s4 := Run(s3, later);
    RunAppend(s, [Test] + between + [Read] + later, [Clear]);
    RunAppend(s, [Test] + between + [Read], later);
    RunAppend(s, [Test] + between, [Read]);
    RunAppend(s, [Test], between);
    RunOne(s, Test);
    RunOne(s2, Read);
    RunOne(s4, Clear);
    DoConsistent(s, Test);
    WriterWaits(s1, between);
    RunConsistent(s1, between);
    DoConsistent(s2, Read);
    WriterWaits(s3, later);
  }
}
