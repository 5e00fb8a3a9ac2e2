/** Sending an oper challenge in lines of limited width. */
module Challenge {

  const CHALLENGE_WIDTH: nat := 512 - (30 + 63 + 12)

  ghost function Concat(lines: seq<string>): string {
    if lines == [] then "" else Concat(lines[..|lines| - 1]) + lines[|lines| - 1]
  }

  /** The lines the loop sends: rb_strlcpy keeps one byte of the width for the terminator. */
  ghost function Lines(chal: string): seq<string>
    decreases |chal|
  {
    if |chal| > CHALLENGE_WIDTH then [chal[..CHALLENGE_WIDTH - 1]] + Lines(chal[CHALLENGE_WIDTH - 1..])
    else if |chal| == CHALLENGE_WIDTH then [chal[..CHALLENGE_WIDTH - 1]]
    else [chal]
  }

  /** Lengths at which the loop stops one character early. */
  ghost predicate Drops(n: nat) {
    n > 1 && n % (CHALLENGE_WIDTH - 1) == 1
  }

  /** The splitting loop of m_challenge. */
  method SplitChallenge(challenge: string) returns (lines: seq<string>)
    ensures lines == Lines(challenge)
  {
    var chal := 0;
    lines := [];
    while true
      invariant 0 <= chal <= |challenge| && lines + Lines(challenge[chal..]) == Lines(challenge)
      decreases |challenge| - chal
    {
      var cnt := |challenge| - chal;
      var line := challenge[chal..chal + if cnt < CHALLENGE_WIDTH then cnt else CHALLENGE_WIDTH - 1];
      ghost var rest := challenge[chal..];
      if cnt > CHALLENGE_WIDTH {
        assert rest[..CHALLENGE_WIDTH - 1] == line;
        assert rest[CHALLENGE_WIDTH - 1..] == challenge[chal + CHALLENGE_WIDTH - 1..];
        lines := lines + [line];
        chal := chal + CHALLENGE_WIDTH - 1;
      } else {
        assert line == if cnt == CHALLENGE_WIDTH then rest[..CHALLENGE_WIDTH - 1] else rest;
        assert Lines(rest) == [line];
        lines := lines + [line];
        break;
      }
    }
  }

  lemma {:induction false} ConcatCons(line: string, lines: seq<string>)
    ensures Concat([line] + lines) == line + Concat(lines)
  {
    var all := [line] + lines;
    if lines == [] {
      assert all[..0] == [];
    } else {
      ConcatCons(line, lines[..|lines| - 1]);
      assert all[..|all| - 1] == [line] + lines[..|lines| - 1] && all[|all| - 1] == lines[|lines| - 1];
    }
  }

  lemma DropsLater(n: nat)
    requires n > CHALLENGE_WIDTH
    ensures Drops(n) == Drops(n - (CHALLENGE_WIDTH - 1))
  {
  }

  lemma {:induction false} LinesConcat(chal: string)
    ensures Concat(Lines(chal)) == if Drops(|chal|) then chal[..|chal| - 1] else chal
    ensures forall i :: 0 <= i < |Lines(chal)| ==> |Lines(chal)[i]| < CHALLENGE_WIDTH
    decreases |chal|
  {
    if |chal| > CHALLENGE_WIDTH {
      var line, rest := chal[..CHALLENGE_WIDTH - 1], chal[CHALLENGE_WIDTH - 1..];
      LinesConcat(rest);
      ConcatCons(line, Lines(rest));
      DropsLater(|chal|);
      CutAndRest(chal, CHALLENGE_WIDTH - 1);
    } else {
      LastLine(chal);
    }
  }

  lemma CutAndRest(chal: string, n: nat)
    requires n < |chal|
    ensures chal[..n] + chal[n..] == chal && chal[..n] + chal[n..][..|chal| - n - 1] == chal[..|chal| - 1]
  {
  }

  lemma LastLine(chal: string)
    requires |chal| <= CHALLENGE_WIDTH
    ensures Concat(Lines(chal)) == if Drops(|chal|) then chal[..|chal| - 1] else chal
  {
    ConcatOne(if |chal| == CHALLENGE_WIDTH then chal[..CHALLENGE_WIDTH - 1] else chal);
    DropsFirst(|chal|);
  }

  lemma ConcatOne(line: string)
    ensures Concat([line]) == line
  {
    assert [line][..0] == [];
  }

  lemma DropsFirst(n: nat)
    requires n <= CHALLENGE_WIDTH
    ensures Drops(n) <==> n == CHALLENGE_WIDTH
  {
    if n < CHALLENGE_WIDTH - 1 {
      assert n % (CHALLENGE_WIDTH - 1) == n;
    }
  }

  /** Every line but the last carries 406 characters. */
  lemma {:induction false} LinesFull(chal: string, i: nat)
    requires i < |Lines(chal)| - 1
    ensures |Lines(chal)[i]| == 406
    decreases i
  {
    if i > 0 {
      LinesFull(chal[CHALLENGE_WIDTH - 1..], i - 1);
    }
  }

  /** The lines sent give back the whole challenge exactly when its length, if above one, does not
      leave a remainder of one by 406. */
  lemma WholeExactly(chal: string)
    ensures Concat(Lines(chal)) == chal <==> !Drops(|chal|)
  {
    LinesConcat(chal);
  }

  /** A challenge of even length, which padded base64 always is, is sent whole. */
  lemma EvenIsWhole(chal: string)
    requires |chal| % 2 == 0
    ensures Concat(Lines(chal)) == chal
  {
    WholeExactly(chal);
    DroppedIsOdd(|chal|);
  }

  lemma DroppedIsOdd(n: nat)
    ensures Drops(n) ==> n % 2 == 1
  {
    if Drops(n) {
      var k := n / 406;
      assert n == 406 * k + 1;
      OddNumber(203 * k, n);
    }
  }

  lemma OddNumber(m: nat, n: nat)
    requires n == 2 * m + 1
    ensures n % 2 == 1
  {
  }
}
