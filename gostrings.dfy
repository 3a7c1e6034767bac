/** The three functions of Go's `strings` package that the storage layer uses
    to build statement text, on strings as sequences of characters. */
module GoStrings {

  /** `strings.Join(parts, sep)`: the parts with `sep` between neighbours. */
  function Join(parts: seq<string>, sep: string): string
  {
    if |parts| == 0 then ""
    else if |parts| == 1 then parts[0]
    else parts[0] + sep + Join(parts[1..], sep)
  }

  /** `strings.Repeat(s, n)`: `n` copies of `s` one after another. */
  function Repeat(s: string, n: nat): string
  {
    if n == 0 then "" else s + Repeat(s, n - 1)
  }

  /** `strings.Split(s, "")`: with an empty separator Go splits after every
      character, and an empty `s` gives an empty slice. */
  function SplitChars(s: string): seq<string>
  {
    seq(|s|, i requires 0 <= i < |s| => [s[i]])
  }

  /** Joining the pieces of a split with the empty separator gives back the
      original text. */
  lemma {:induction false} SplitJoinRoundTrip(s: string)
    ensures Join(SplitChars(s), "") == s
  {
    if |s| >= 2 {
      SplitJoinRoundTrip(s[1..]);
      assert SplitChars(s)[1..] == SplitChars(s[1..]);
    } else if |s| == 1 {
      assert s == [s[0]] && SplitChars(s) == [[s[0]]];
    }
  }

  /** The placeholder list of an INSERT statement, built exactly as the
      storage layer builds it: `Join(Split(Repeat("?", n), ""), ", ")`. */
  function QuestionMarks(n: nat): string
  {
    Join(SplitChars(Repeat("?", n)), ", ")
  }

  /** The number of occurrences of `c` in `s`. */
  function Count(s: string, c: char): nat
  {
    if |s| == 0 then 0 else (if s[0] == c then 1 else 0) + Count(s[1..], c)
  }

  /** Repeating a one-character string `n` times gives that character `n` times. */
  lemma {:induction false} RepeatChar(c: char, n: nat)
    ensures Repeat([c], n) == seq(n, _ => c)
  {
    if n > 0 {
      RepeatChar(c, n - 1);
    }
  }

  /** The split of `n` question marks is `n` one-character strings "?". */
  lemma SplitQuestionMarks(n: nat)
    ensures SplitChars(Repeat("?", n)) == seq(n, _ => "?")
  {
    RepeatChar('?', n);
  }

  /** For two or more placeholders the list is "?, " followed by the list for one fewer. */
  lemma {:induction false} QuestionMarksStep(n: nat)
    requires n >= 2
    ensures QuestionMarks(n) == "?" + ", " + QuestionMarks(n - 1)
  {
    SplitQuestionMarks(n);
    SplitQuestionMarks(n - 1);
    var parts: seq<string> := seq(n, _ => "?");
    assert parts[1..] == seq(n - 1, _ => "?");
  }

  /** The placeholder list, character by character: empty for no columns,
      otherwise `n` marks at every third position with ", " between them. */
  lemma {:induction false} QuestionMarksShape(n: nat)
    ensures n == 0 ==> QuestionMarks(n) == ""
    ensures n > 0 ==> |QuestionMarks(n)| == 3 * n - 2
    ensures forall i :: 0 <= i < |QuestionMarks(n)| ==>
              QuestionMarks(n)[i] == (if i % 3 == 0 then '?' else if i % 3 == 1 then ',' else ' ')
  {
    if n == 0 {
      SplitQuestionMarks(0);
    } else if n == 1 {
      SplitQuestionMarks(1);
      assert QuestionMarks(1) == "?";
    } else {
      QuestionMarksStep(n);
      QuestionMarksShape(n - 1);
      var q, p := QuestionMarks(n), QuestionMarks(n - 1);
      assert q == "?, " + p;
      forall i | 3 <= i < |q|
        ensures q[i] == (if i % 3 == 0 then '?' else if i % 3 == 1 then ',' else ' ')
      {
        assert q[i] == p[i - 3];
        assert (i - 3) % 3 == i % 3;
      }
    }
  }

  /** One more "?, " in front adds one question mark. */
  lemma CountMarkPrefix(p: string)
    ensures Count("?, " + p, '?') == 1 + Count(p, '?')
  {
    var q := "?, " + p;
    assert q[1..] == ", " + p;
    assert q[1..][1..] == " " + p;
    assert q[1..][1..][1..] == p;
    calc {
      Count(q, '?');
      1 + Count(q[1..], '?');
      1 + Count(q[1..][1..], '?');
      1 + Count(q[1..][1..][1..], '?');
    }
  }

  /** The placeholder list holds exactly `n` question marks. */
  lemma {:induction false} QuestionMarksCount(n: nat)
    ensures Count(QuestionMarks(n), '?') == n
  {
    if n == 0 {
      SplitQuestionMarks(0);
    } else if n == 1 {
      SplitQuestionMarks(1);
      assert QuestionMarks(1) == "?";
      assert Count("?", '?') == 1 + Count("", '?');
    } else {
      QuestionMarksStep(n);
      QuestionMarksCount(n - 1);
      assert QuestionMarks(n) == "?, " + QuestionMarks(n - 1);
      CountMarkPrefix(QuestionMarks(n - 1));
    }
  }
}
