/** get_user_confirmation (pomo.py): prompt until a line reads "yes" or "no"
    in any letter case. The terminal's line input is a finite sequence of
    lines; running out of lines stands for the prompt blocking forever. */
module Confirmation {

  datatype Option<T> = None | Some(value: T)

  /** Lower-casing of one character, ASCII letters only. */
  function LowerChar(c: char): (d: char)
    ensures 'A' <= c <= 'Z' ==> 'a' <= d <= 'z' && d as int - 'a' as int == c as int - 'A' as int
    ensures !('A' <= c <= 'Z') ==> d == c
  {
    if 'A' <= c <= 'Z' then (c as int - 'A' as int + 'a' as int) as char else c
  }

  /** str.lower() restricted to ASCII letters. */
  function Lower(s: string): (r: string)
    ensures |r| == |s|
    ensures forall k :: 0 <= k < |s| ==> r[k] == LowerChar(s[k])
  {
    if s == [] then [] else [LowerChar(s[0])] + Lower(s[1..])
  }

  /** A line the prompt accepts. */
  predicate IsAnswer(line: string)
  {
    Lower(line) == "yes" || Lower(line) == "no"
  }

  /** A character lower-cases to a given lower-case letter exactly when it
      is that letter or its upper-case form. */
  lemma LowerCharTo(c: char, lower: char)
    requires 'a' <= lower <= 'z'
    ensures LowerChar(c) == lower <==> c == lower || c as int == lower as int - ('a' as int - 'A' as int)
  {
  }

  /** A line lower-cases to "yes" exactly when it spells y-e-s in any mix of
      upper and lower case; "y", "" and longer lines do not. */
  lemma LowerIsYes(line: string)
    ensures Lower(line) == "yes" <==>
      && |line| == 3
      && (line[0] == 'y' || line[0] == 'Y')
      && (line[1] == 'e' || line[1] == 'E')
      && (line[2] == 's' || line[2] == 'S')
  {
    if |line| == 3 {
      var l := Lower(line);
      LowerCharTo(line[0], 'y');
      LowerCharTo(line[1], 'e');
      LowerCharTo(line[2], 's');
      assert l == "yes" <==> l[0] == 'y' && l[1] == 'e' && l[2] == 's';
    }
  }

  /** The same for "no". */
  lemma LowerIsNo(line: string)
    ensures Lower(line) == "no" <==>
      && |line| == 2
      && (line[0] == 'n' || line[0] == 'N')
      && (line[1] == 'o' || line[1] == 'O')
  {
    if |line| == 2 {
      var l := Lower(line);
      LowerCharTo(line[0], 'n');
      LowerCharTo(line[1], 'o');
      assert l == "no" <==> l[0] == 'n' && l[1] == 'o';
    }
  }

  /** The retry loop: read lines until one is an answer, showing the
      "Invalid input" message once for every line rejected before it.
      Returns the lower-cased answer, the number of lines read, and the
      number of invalid-input messages shown. */
  method GetUserConfirmation(input: seq<string>) returns (choice: Option<string>, used: nat, invalid: nat)
    ensures invalid <= used <= |input|
    ensures forall k :: 0 <= k < invalid ==> !IsAnswer(input[k])
    ensures choice.None? ==> used == invalid == |input|
    ensures choice.Some? ==>
      && used == invalid + 1
      && IsAnswer(input[invalid])
      && choice.value == Lower(input[invalid])
      && (choice.value == "yes" || choice.value == "no")
  {
    var k := 0;
    invalid := 0;
    while k < |input|
      invariant 0 <= k <= |input| && invalid == k
      invariant forall j :: 0 <= j < k ==> !IsAnswer(input[j])
    {
      var line := Lower(input[k]);
      if line == "yes" || line == "no" {
        return Some(line), k + 1, invalid;
      }
      // the invalid-input message, then a 2 s pause
      invalid := invalid + 1;
      k := k + 1;
    }
    return None, k, invalid;
  }

  /** The answers successive prompts obtain from a stream of lines: each
      prompt consumes lines up to and including the next valid one, so the
      answers are the valid lines, lower-cased, in order. */
  function Answers(lines: seq<string>): (r: seq<string>)
    ensures |r| <= |lines|
    ensures forall k :: 0 <= k < |r| ==> r[k] == "yes" || r[k] == "no"
  {
    if lines == [] then []
    else (if IsAnswer(lines[0]) then [Lower(lines[0])] else []) + Answers(lines[1..])
  }

  /** One prompt that accepts line n, after rejecting every line before it,
      takes the first of the answers and leaves the rest to the next prompt. */
  lemma {:induction false} AnswersAfterPrompt(lines: seq<string>, n: nat)
    requires n < |lines| && IsAnswer(lines[n])
    requires forall k :: 0 <= k < n ==> !IsAnswer(lines[k])
    ensures Answers(lines) == [Lower(lines[n])] + Answers(lines[n + 1..])
  {
    if n > 0 {
      AnswersAfterPrompt(lines[1..], n - 1);
      assert lines[1..][n..] == lines[n + 1..];
    }
  }

  /** A stream in which no line is valid yields no answer. */
  lemma {:induction false} AnswersOfInvalid(lines: seq<string>)
    requires forall k :: 0 <= k < |lines| ==> !IsAnswer(lines[k])
    ensures Answers(lines) == []
  {
    if lines != [] {
      AnswersOfInvalid(lines[1..]);
    }
  }
}
