/** The local-input side of Shell::try_interact: bytes typed at the terminal, forwarded to the
    channel except for the escape sequence that detaches. */
module EscapeMachine {
  import opened Basics

  predicate IsNewline(c: char) {
    c == '\n' || c == '\r'
  }

  // ---- what the escape is for ----

  predicate AtLineStart(input: string, i: nat)
    requires i <= |input|
  {
    i == 0 || input[i - 1] == '\n' || input[i - 1] == '\r'
  }

  /** The detach sequence, the escape character and a dot at the start of a line, stands at i. */
  predicate DetachesAt(input: string, escape: char, i: nat) {
    i + 1 < |input| && AtLineStart(input, i) && input[i] == escape && input[i + 1] == '.'
  }

  predicate NoDetach(input: string, escape: char) {
    forall i: nat :: i < |input| ==> !DetachesAt(input, escape, i)
  }

  /** input ends in an escape character at a line start, whose meaning the next byte decides. */
  predicate EndsHeld(input: string, escape: char) {
    input != "" && AtLineStart(input, |input| - 1) && input[|input| - 1] == escape
  }

  /** Everything up to the first detach sequence is forwarded and nothing after it; without one,
      everything is, but for an escape still held back. */
  ghost predicate MeetsSpec(input: string, escape: char, forwarded: string, detach: bool) {
    && (detach <==> !NoDetach(input, escape))
    && (detach ==>
          && DetachesAt(input, escape, |forwarded|)
          && forwarded == input[..|forwarded|]
          && forall i: nat :: i < |forwarded| ==> !DetachesAt(input, escape, i))
    && (!detach ==> forwarded + (if EndsHeld(input, escape) then [escape] else "") == input)
  }

  // ---- the machine ----

  datatype State = State(atLineStart: bool, escapeSeen: bool, detach: bool, forwarded: string)

  const START := State(true, false, false, "")

  function Next(s: State, c: char, enabled: bool, escape: char): State {
    if s.detach then s
    else if enabled && s.atLineStart && c == escape then s.(escapeSeen := true, atLineStart := false)
    else if enabled && s.escapeSeen && c == '.' then s.(escapeSeen := false, detach := true)
    else
      var before := if enabled && s.escapeSeen then s.forwarded + [escape] else s.forwarded;
      State(IsNewline(c), s.escapeSeen && !enabled, false, before + [c])
  }

  /** The state after reading input. */
  function Relay(input: string, enabled: bool, escape: char): State {
    if input == "" then START
    else Next(Relay(input[..|input| - 1], enabled, escape), input[|input| - 1], enabled, escape)
  }

  /** What the machine does with input is what the escape is for. */
  ghost predicate Conforms(input: string, escape: char) {
    MeetsSpec(input, escape, Relay(input, true, escape).forwarded, Relay(input, true, escape).detach)
  }

  lemma RelayStep(input: string, c: char, enabled: bool, escape: char)
    ensures Relay(input + [c], enabled, escape) == Next(Relay(input, enabled, escape), c, enabled, escape)
  {
    assert (input + [c])[..|input|] == input;
  }

  /** What reaches the channel of the bytes forwarded: the outcome of a write is not looked at. */
  function Delivered(forwarded: string, accepts: nat -> bool): string {
    if forwarded == "" then ""
    else
      var k := |forwarded| - 1;
      if accepts(k) then Delivered(forwarded[..k], accepts) + [forwarded[k]] else Delivered(forwarded[..k], accepts)
  }

  lemma {:induction false} DeliveredIsAllIff(forwarded: string, accepts: nat -> bool)
    ensures |Delivered(forwarded, accepts)| <= |forwarded|
    ensures Delivered(forwarded, accepts) == forwarded <==> forall k :: 0 <= k < |forwarded| ==> accepts(k)
  {
    if forwarded != "" {
      var k := |forwarded| - 1;
      DeliveredIsAllIff(forwarded[..k], accepts);
      assert forwarded == forwarded[..k] + [forwarded[k]];
    }
  }

  /** try_write_all of one byte; the k-th byte forwarded arrives if accepts(k). */
  method Forward(c: char, forwarded: string, delivered: string, accepts: nat -> bool)
    returns (forwarded': string, delivered': string)
    requires delivered == Delivered(forwarded, accepts)
    ensures forwarded' == forwarded + [c] && delivered' == Delivered(forwarded', accepts)
  {
    forwarded' := forwarded + [c];
    delivered' := if accepts(|forwarded|) then delivered + [c] else delivered;
    assert forwarded'[..|forwarded|] == forwarded;
  }

  /** The body of the loop, for one byte read. */
  method TakeByte(c: char, enabled: bool, escape: char, atLineStart: bool, escapeSeen: bool, forwarded: string,
                  delivered: string, accepts: nat -> bool)
    returns (atLineStart': bool, escapeSeen': bool, detach: bool, forwarded': string, delivered': string)
    requires delivered == Delivered(forwarded, accepts)
    ensures delivered' == Delivered(forwarded', accepts)
    ensures State(atLineStart', escapeSeen', detach, forwarded')
         == Next(State(atLineStart, escapeSeen, false, forwarded), c, enabled, escape)
  {
    atLineStart', escapeSeen', detach := atLineStart, escapeSeen, false;
    forwarded', delivered' := forwarded, delivered;
    if enabled {
      if atLineStart && c == escape {
        escapeSeen' := true;
        atLineStart' := false;
        return;
      }
      if escapeSeen {
        escapeSeen' := false;
        if c == '.' {
          detach := true;
          return;
        }
        forwarded', delivered' := Forward(escape, forwarded', delivered', accepts);
      }
    }
    atLineStart' := IsNewline(c);
    forwarded', delivered' := Forward(c, forwarded', delivered', accepts);
  }

  /** The loop over the terminal's input. The channel closes, or reading fails, when alive bytes have
      been read, if the input is not over before; consumed is what was read. */
  method ReadInput(input: string, alive: nat, enabled: bool, escape: char, accepts: nat -> bool)
    returns (forwarded: string, delivered: string, detach: bool, consumed: nat)
    ensures consumed <= Min(alive, |input|) && (!detach ==> consumed == Min(alive, |input|))
    ensures forwarded == Relay(input[..consumed], enabled, escape).forwarded
    ensures detach == Relay(input[..consumed], enabled, escape).detach
    ensures detach ==> consumed > 0 && !Relay(input[..consumed - 1], enabled, escape).detach
    ensures delivered == Delivered(forwarded, accepts)
  {
    var atLineStart, escapeSeen := true, false;
    forwarded, delivered, detach, consumed := "", "", false, 0;
    while !detach && consumed < |input|
      invariant consumed <= Min(alive, |input|)
      invariant Relay(input[..consumed], enabled, escape) == State(atLineStart, escapeSeen, detach, forwarded)
      invariant detach ==> consumed > 0 && !Relay(input[..consumed - 1], enabled, escape).detach
      invariant delivered == Delivered(forwarded, accepts)
      decreases |input| - consumed
    {
      if consumed == alive {
        break;
      }
      var c := input[consumed];
      assert input[..consumed + 1] == input[..consumed] + [c];
      RelayStep(input[..consumed], c, enabled, escape);
      assert input[..consumed + 1 - 1] == input[..consumed];
      consumed := consumed + 1;
      atLineStart, escapeSeen, detach, forwarded, delivered :=
        TakeByte(c, enabled, escape, atLineStart, escapeSeen, forwarded, delivered, accepts);
    }
  }

  /** What the loop means. forwarded is what it tries to write; all of it arrives exactly when no
      write fails. */
  method Interact(input: string, alive: nat, enabled: bool, escape: char, accepts: nat -> bool)
    returns (forwarded: string, delivered: string, detach: bool, consumed: nat)
    ensures consumed <= Min(alive, |input|) && (!detach ==> consumed == Min(alive, |input|))
    ensures detach ==> consumed > 0 && !Relay(input[..consumed - 1], enabled, escape).detach
    ensures !enabled ==> forwarded == input[..consumed] && !detach
    ensures enabled && escape != '\n' && escape != '\r' ==>
      MeetsSpec(input[..consumed], escape, forwarded, detach)
    ensures delivered == Delivered(forwarded, accepts)
    ensures delivered == forwarded <==> forall k :: 0 <= k < |forwarded| ==> accepts(k)
  {
    forwarded, delivered, detach, consumed := ReadInput(input, alive, enabled, escape, accepts);
    DeliveredIsAllIff(forwarded, accepts);
    if enabled && !IsNewline(escape) {
      RelayMeetsSpec(input[..consumed], escape);
    }
    if !enabled {
      DisabledIsIdentity(input[..consumed], escape);
    }
  }

  /** With escapes disabled, every byte goes through. */
  lemma {:induction false} DisabledIsIdentity(input: string, escape: char)
    ensures PassesAll(Relay(input, false, escape), input)
  {
    if input != "" {
      var front, c := input[..|input| - 1], input[|input| - 1];
      DisabledIsIdentity(front, escape);
      DisabledStep(Relay(front, false, escape), front, c, escape);
      assert front + [c] == input;
    }
  }

  predicate PassesAll(s: State, input: string) {
    s.forwarded == input && !s.detach
  }

  lemma DisabledStep(s: State, front: string, c: char, escape: char)
    requires PassesAll(s, front)
    ensures PassesAll(Next(s, c, false, escape), front + [c])
  {
  }

  /** One more byte c completes a detach sequence exactly when an escape was held and c is a dot. */
  lemma OneMoreByte(front: string, c: char, escape: char)
    ensures forall i: nat :: i <= |front| ==> AtLineStart(front, i) == AtLineStart(front + [c], i)
    ensures forall i: nat :: i + 1 < |front| ==> DetachesAt(front, escape, i) == DetachesAt(front + [c], escape, i)
    ensures forall i: nat :: i + 1 == |front| ==> (DetachesAt(front + [c], escape, i) <==> EndsHeld(front, escape) && c == '.')
    ensures NoDetach(front + [c], escape) <==> NoDetach(front, escape) && !(EndsHeld(front, escape) && c == '.')
  {
    if !NoDetach(front, escape) {
      var i: nat :| i < |front| && DetachesAt(front, escape, i);
      assert DetachesAt(front + [c], escape, i);
    }
    if EndsHeld(front, escape) && c == '.' {
      assert DetachesAt(front + [c], escape, |front| - 1);
    }
  }

  /** The machine's memory says what the input says. */
  lemma {:induction false} RelayInvariant(input: string, escape: char)
    requires !IsNewline(escape)
    ensures var s := Relay(input, true, escape);
      Conforms(input, escape) &&
      (!s.detach ==> (s.escapeSeen <==> EndsHeld(input, escape)) && (s.atLineStart <==> AtLineStart(input, |input|)))
  {
    if input != "" {
      var front, c := input[..|input| - 1], input[|input| - 1];
      assert front + [c] == input;
      RelayInvariant(front, escape);
      OneMoreByte(front, c, escape);
    }
  }

  lemma RelayMeetsSpec(input: string, escape: char)
    requires !IsNewline(escape)
    ensures Conforms(input, escape)
  {
    RelayInvariant(input, escape);
  }

  /** With a newline as escape character the machine misses a detach sequence: the held escape
      it gives back also starts a line, but no longer counts as an escape. */
  lemma NewlineEscapeMissesDetach(escape: char)
    requires escape == '\n' || escape == '\r'
    ensures !Conforms([escape, escape, '.'], escape)
  {
    var input := [escape, escape, '.'];
    RelayStep("", escape, true, escape);
    RelayStep([escape], escape, true, escape);
    RelayStep([escape, escape], '.', true, escape);
    assert "" + [escape] == [escape] && [escape] + [escape] == [escape, escape] && [escape, escape] + ['.'] == input;
    assert !Relay(input, true, escape).detach;
    assert DetachesAt(input, escape, 1);
  }

  /** The machine does what the escape is for, on all inputs, exactly when the escape character
      is neither CR nor LF. */
  lemma MeetsSpecIff(escape: char)
    ensures (forall input :: Conforms(input, escape)) <==> escape != '\n' && escape != '\r'
  {
    if IsNewline(escape) {
      NewlineEscapeMissesDetach(escape);
    } else {
      forall input ensures Conforms(input, escape) {
        RelayMeetsSpec(input, escape);
      }
    }
  }
}
