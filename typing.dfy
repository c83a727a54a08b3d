/**
 * The hero typing effect: a timer-driven state machine that types a phrase
 * one character per tick, pauses, deletes it one character per tick and moves
 * on to the next phrase, forever. Each timer callback is one call of Tick; the
 * delay it schedules is its result.
 */
module Typing {

  /** The phrases the hero cycles through. */
  const HeroWords: seq<string> := ["Junior Developer", "Web Developer", "Backend Developer", "Frontend Developer"]

  const TypingSpeed: nat := 80      // ms per character typed
  const BackspaceSpeed: nat := 40   // ms per character deleted
  const DelayBetween: nat := 1200   // ms pause once a phrase is complete
  const StartDelay: nat := 400      // ms before the first tick

  /** The animator's state: the closure variables of typeLoop. */
  datatype State = State(wordIndex: nat, charIndex: nat, isDeleting: bool)

  /** What one tick produces: the next state, the text shown, the delay before
      the next tick. */
  datatype TickResult = TickResult(next: State, text: string, delay: nat)

  /** The phrase list the animator needs: at least one phrase, none empty. */
  predicate WellFormedWords(words: seq<string>) {
    |words| > 0 && forall i :: 0 <= i < |words| ==> |words[i]| > 0
  }

  /** The states reachable from the initial one: the character index stays
      inside the current phrase, is short of its end while typing and past
      its start while deleting. */
  predicate Inv(words: seq<string>, s: State) {
    && s.wordIndex < |words|
    && s.charIndex <= |words[s.wordIndex]|
    && (!s.isDeleting ==> s.charIndex < |words[s.wordIndex]|)
    && (s.isDeleting ==> s.charIndex >= 1)
  }

  const Initial: State := State(0, 0, false)

  /** JavaScript's String.prototype.slice(0, end): a negative end counts from
      the back, and the end is clamped to the string. */
  function SliceTo(s: string, end: int): (r: string)
    ensures 0 <= end <= |s| ==> r == s[..end]
    ensures end > |s| ==> r == s
    ensures end < 0 ==> r == s[..if |s| + end < 0 then 0 else |s| + end]
    ensures |r| <= |s| && r == s[..|r|]
  {
    if end < 0 then (if |s| + end < 0 then [] else s[..|s| + end])
    else if end > |s| then s
    else s[..end]
  }

  /** One call of typeLoop. */
  function Step(words: seq<string>, s: State): (r: TickResult)
    requires WellFormedWords(words) && Inv(words, s)
    ensures Inv(words, r.next)
    ensures r.text == words[r.next.wordIndex][..r.next.charIndex]
  {
    var current := words[s.wordIndex];
    if !s.isDeleting then
      var text := SliceTo(current, s.charIndex + 1);
      var c := s.charIndex + 1;
      if c == |current| then TickResult(State(s.wordIndex, c, true), text, DelayBetween)
      else TickResult(State(s.wordIndex, c, false), text, TypingSpeed)
    else
      var text := SliceTo(current, s.charIndex - 1);
      var c := s.charIndex - 1;
      if c == 0 then TickResult(State((s.wordIndex + 1) % |words|, 0, false), text, TypingSpeed)
      else TickResult(State(s.wordIndex, c, true), text, BackspaceSpeed)
  }

  /** The four transitions of the machine and the delay each one schedules. */
  lemma StepTransitions(words: seq<string>, s: State)
    requires WellFormedWords(words) && Inv(words, s)
    ensures var r := Step(words, s); var n := |words[s.wordIndex]|;
      && (!s.isDeleting && s.charIndex + 1 == n ==>
            r.next == State(s.wordIndex, n, true) && r.delay == DelayBetween && r.text == words[s.wordIndex])
      && (!s.isDeleting && s.charIndex + 1 < n ==>
            r.next == State(s.wordIndex, s.charIndex + 1, false) && r.delay == TypingSpeed)
      && (s.isDeleting && s.charIndex == 1 ==>
            r.next == State((s.wordIndex + 1) % |words|, 0, false) && r.delay == TypingSpeed && r.text == "")
      && (s.isDeleting && s.charIndex > 1 ==>
            r.next == State(s.wordIndex, s.charIndex - 1, true) && r.delay == BackspaceSpeed)
  {
  }

  /** The delay of a tick is the pause exactly when it completes a phrase, the
      backspace speed exactly when deleting goes on, the typing speed otherwise. */
  lemma StepDelay(words: seq<string>, s: State)
    requires WellFormedWords(words) && Inv(words, s)
    ensures var r := Step(words, s);
      && (r.delay == DelayBetween <==> !s.isDeleting && r.next.isDeleting)
      && (r.delay == BackspaceSpeed <==> s.isDeleting && r.next.isDeleting)
      && (r.delay == TypingSpeed <==> !r.next.isDeleting)
  {
  }

  /** The state after k ticks. */
  function After(words: seq<string>, s: State, k: nat): (t: State)
    requires WellFormedWords(words) && Inv(words, s)
    ensures Inv(words, t)
    decreases k
  {
    if k == 0 then s else After(words, Step(words, s).next, k - 1)
  }

  /** The (text, delay) pairs of k ticks, in order. */
  function Trace(words: seq<string>, s: State, k: nat): (tr: seq<(string, nat)>)
    requires WellFormedWords(words) && Inv(words, s)
    ensures |tr| == k
    decreases k
  {
    if k == 0 then []
    else var r := Step(words, s); [(r.text, r.delay)] + Trace(words, r.next, k - 1)
  }

  /** The first tick of a trace, and the rest of it as a trace from the next state. */
  lemma TraceStep(words: seq<string>, s: State, k: nat)
    requires WellFormedWords(words) && Inv(words, s) && k >= 1
    ensures var r := Step(words, s); var tr := Trace(words, s, k); var tail := Trace(words, r.next, k - 1);
      && tr[0] == (r.text, r.delay)
      && (forall j :: 1 <= j < k ==> tr[j] == tail[j - 1])
      && After(words, s, k) == After(words, r.next, k - 1)
  {
    var r := Step(words, s);
    assert Trace(words, s, k) == [(r.text, r.delay)] + Trace(words, r.next, k - 1);
  }

  /** Typing a phrase: from character c, the remaining ticks show the prefixes
      of lengths c+1, ..., n at the typing speed, the last one pausing, and
      leave the machine deleting at the full phrase. */
  lemma {:induction false} TypingPhase(words: seq<string>, w: nat, c: nat)
    requires WellFormedWords(words) && w < |words| && c < |words[w]|
    ensures var n := |words[w]|; var tr := Trace(words, State(w, c, false), n - c);
      && After(words, State(w, c, false), n - c) == State(w, n, true)
      && (forall i :: 0 <= i < n - c ==> tr[i].0 == words[w][..c + i + 1])
      && (forall i :: 0 <= i < n - c - 1 ==> tr[i].1 == TypingSpeed)
      && tr[n - c - 1] == (words[w], DelayBetween)
    decreases |words[w]| - c
  {
    var n := |words[w]|;
    var s := State(w, c, false);
    var r := Step(words, s);
    TraceStep(words, s, n - c);
    if c + 1 < n {
      assert r.next == State(w, c + 1, false) && r.delay == TypingSpeed;
      assert r.text == words[w][..c + 1];
      TypingPhase(words, w, c + 1);
    } else {
      assert r.next == State(w, n, true) && r.delay == DelayBetween;
      assert words[w][..n] == words[w];
    }
  }

  /** Deleting a phrase: from character c, the next c ticks show the prefixes
      of lengths c-1, ..., 0, at the backspace speed except the last, and leave
      the machine typing the next phrase from its start. */
  lemma {:induction false} DeletingPhase(words: seq<string>, w: nat, c: nat)
    requires WellFormedWords(words) && w < |words| && 1 <= c <= |words[w]|
    ensures var tr := Trace(words, State(w, c, true), c);
      && After(words, State(w, c, true), c) == State((w + 1) % |words|, 0, false)
      && (forall i :: 0 <= i < c ==> tr[i].0 == words[w][..c - i - 1])
      && (forall i :: 0 <= i < c - 1 ==> tr[i].1 == BackspaceSpeed)
      && tr[c - 1] == ("", TypingSpeed)
    decreases c
  {
    var s := State(w, c, true);
    var r := Step(words, s);
    TraceStep(words, s, c);
    if c > 1 {
      assert r.next == State(w, c - 1, true) && r.delay == BackspaceSpeed;
      assert r.text == words[w][..c - 1];
      DeletingPhase(words, w, c - 1);
    } else {
      assert r.next == State((w + 1) % |words|, 0, false) && r.text == "" && r.delay == TypingSpeed;
    }
  }

  lemma {:induction false} AfterAdd(words: seq<string>, s: State, j: nat, k: nat)
    requires WellFormedWords(words) && Inv(words, s)
    ensures After(words, s, j + k) == After(words, After(words, s, j), k)
    decreases j
  {
    if j > 0 {
      AfterAdd(words, Step(words, s).next, j - 1, k);
    }
  }

  /** A full cycle: starting a phrase, the machine shows the whole phrase, then
      the empty text, and after 2n ticks starts the next phrase (wrapping round). */
  lemma WordCycle(words: seq<string>, w: nat)
    requires WellFormedWords(words) && w < |words|
    ensures var n := |words[w]|; var s := State(w, 0, false);
      && Trace(words, s, n)[n - 1].0 == words[w]
      && After(words, s, n) == State(w, n, true)
      && Trace(words, After(words, s, n), n)[n - 1].0 == ""
      && After(words, s, 2 * n) == State((w + 1) % |words|, 0, false)
  {
    var n := |words[w]|;
    var s := State(w, 0, false);
    TypingPhase(words, w, 0);
    DeletingPhase(words, w, n);
    AfterAdd(words, s, n, n);
  }

  /** The phrases of the hero satisfy what the animator needs. */
  lemma HeroWordsWellFormed()
    ensures WellFormedWords(HeroWords) && Inv(HeroWords, Initial)
  {
  }

  /**
   * The animator as the page runs it: the closure variables of typeLoop and
   * the text of the `.typed` element.
   */
  class Typewriter {
    const words: seq<string>
    var wordIndex: nat
    var charIndex: nat
    var isDeleting: bool
    var text: string

    function Current(): State
      reads this
    {
      State(wordIndex, charIndex, isDeleting)
    }

    /** The displayed text always is the first charIndex characters of the
        current phrase. */
    ghost predicate Valid()
      reads this
    {
      WellFormedWords(words) && Inv(words, Current()) && text == words[wordIndex][..charIndex]
    }

    constructor (words: seq<string>)
      requires WellFormedWords(words)
      ensures Valid()
      ensures this.words == words && Current() == Initial && text == ""
    {
      this.words := words;
      wordIndex, charIndex, isDeleting := 0, 0, false;
      text := "";
    }

    /** One timer callback: updates the text and the state, and returns the
        delay to schedule the next one with. */
    method Tick() returns (delay: nat)
      requires Valid()
      modifies this
      ensures Valid()
      ensures Current() == Step(words, old(Current())).next
      ensures text == Step(words, old(Current())).text
      ensures delay == Step(words, old(Current())).delay
    {
      var current := words[wordIndex];
      if !isDeleting {
        text := SliceTo(current, charIndex + 1);
        charIndex := charIndex + 1;
        if charIndex == |current| {
          isDeleting := true;
          delay := DelayBetween;
          return;
        }
      } else {
        text := SliceTo(current, charIndex - 1);
        charIndex := charIndex - 1;
        if charIndex == 0 {
          isDeleting := false;
          wordIndex := (wordIndex + 1) % |words|;
        }
      }
      delay := if isDeleting then BackspaceSpeed else TypingSpeed;
    }
  }

  /** Page load: the animator over the hero phrases, with its first tick
      scheduled StartDelay ms later. */
  method Start() returns (t: Typewriter, delay: nat)
    ensures fresh(t) && t.Valid()
    ensures t.words == HeroWords && t.Current() == Initial && t.text == ""
    ensures delay == StartDelay
  {
    HeroWordsWellFormed();
    t := new Typewriter(HeroWords);
    delay := StartDelay;
  }
}
