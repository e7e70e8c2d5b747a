/** The answer key of `multiple_choice` in matiq.py: the choices are
    shuffled in place, then the key letter is the position of the correct
    answer in the shuffled list. */
module Choice {
  import opened Wrappers

  /** `string.ascii_uppercase`. */
  const Uppercase: string := "ABCDEFGHIJKLMNOPQRSTUVWXYZ"

  /** `xs.index(x)`: the first position holding `x`, or None (where Python
      raises ValueError). */
  function IndexOf(xs: seq<string>, x: string): (r: Option<nat>)
    ensures r.None? <==> x !in xs
    ensures r.Some? ==> r.value < |xs| && xs[r.value] == x && x !in xs[..r.value]
  {
    if xs == [] then None
    else if xs[0] == x then Some(0)
    else
      match IndexOf(xs[1..], x)
      case None => None
      case Some(i) =>
        assert xs[..i + 1] == [xs[0]] + xs[1..][..i];
        Some(i + 1)
  }

  /** The key letter for `correct` among the rendered `choices`:
      ValueError when it is not among them, IndexError when its position
      is past the alphabet, otherwise the letter whose alphabet position is
      the first position of `correct`. */
  function KeyLetter(choices: seq<string>, correct: string): (r: Result<char>)
    ensures r.Err? ==> (r.error == ValueError <==> correct !in choices)
    ensures r.Err? && r.error != ValueError ==> r.error == IndexError
    ensures r.Ok? ==> 'A' <= r.value <= 'Z'
    ensures r.Ok? ==>
      var i := r.value as int - 'A' as int;
      i < |choices| && choices[i] == correct && correct !in choices[..i]
  {
    match IndexOf(choices, correct)
    case None => Err(ValueError)
    case Some(i) =>
      if i < |Uppercase| then Ok(Uppercase[i]) else Err(IndexError)
  }

  /** A correct answer among the first 26 choices always gets a letter. */
  lemma KeyLetterDefined(choices: seq<string>, correct: string)
    requires exists k :: 0 <= k < |choices| && k < 26 && choices[k] == correct
    ensures KeyLetter(choices, correct).Ok?
  {
  }

  /** Exchanges the elements at `i` and `j`. */
  function Swapped(s: seq<string>, i: nat, j: nat): (t: seq<string>)
    requires i < |s| && j < |s|
    ensures |t| == |s|
  {
    s[i := s[j]][j := s[i]]
  }

  /** The random draws a shuffle of `n` elements may use: the draw made at
      position `i` is at most `i`. */
  predicate Draws(picks: seq<nat>, n: int) {
    |picks| + 1 >= n && forall k :: 0 <= k < |picks| ==> picks[k] <= k + 1
  }

  /** The effect of the swaps `random.shuffle` makes at positions `i`,
      `i - 1`, ..., 1: position `k` is exchanged with position
      `picks[k - 1]`. */
  function Shuffled(s: seq<string>, picks: seq<nat>, i: int): (t: seq<string>)
    requires Draws(picks, |s|) && i < |s|
    ensures |t| == |s|
    decreases i
  {
    if i < 1 then s else Shuffled(Swapped(s, i, picks[i - 1]), picks, i - 1)
  }

  /** A swap keeps the same elements. */
  lemma SwappedPermutation(s: seq<string>, i: nat, j: nat)
    requires i < |s| && j < |s|
    ensures multiset(Swapped(s, i, j)) == multiset(s)
  {
    var t := s[i := s[j]];
    assert multiset(t) == multiset(s) - multiset{s[i]} + multiset{s[j]};
  }

  /** Shuffling keeps the same elements, each as often as before. */
  lemma {:induction false} ShuffledPermutation(s: seq<string>, picks: seq<nat>, i: int)
    requires Draws(picks, |s|) && i < |s|
    ensures multiset(Shuffled(s, picks, i)) == multiset(s)
    decreases i
  {
    if i >= 1 {
      SwappedPermutation(s, i, picks[i - 1]);
      ShuffledPermutation(Swapped(s, i, picks[i - 1]), picks, i - 1);
    }
  }

  /** `random.shuffle(choices)`, with the random draws supplied by the
      caller: `picks[i - 1]` is the draw below `i + 1` made when the loop
      reaches position `i`. */
  method Shuffle(choices: array<string>, picks: seq<nat>)
    requires Draws(picks, choices.Length)
    modifies choices
    ensures choices[..] == Shuffled(old(choices[..]), picks, choices.Length - 1)
  {
    var i := choices.Length - 1;
    while i >= 1
      invariant -1 <= i < choices.Length
      invariant Shuffled(choices[..], picks, i) == Shuffled(old(choices[..]), picks, choices.Length - 1)
      decreases i
    {
      var j := picks[i - 1];
      ghost var before := choices[..];
      choices[i], choices[j] := choices[j], choices[i];
      assert choices[..] == Swapped(before, i, j);
      i := i - 1;
    }
  }

  /** The key line of `multiple_choice(question, choices, correct, reorder)`:
      the choices are shuffled in place when `reorder` is set (the default,
      as in Python), and the key is "L. correct" where L is the letter of
      the first position of `correct` in the list as it is after the
      shuffle; ValueError when `correct` is absent, IndexError when its
      position is past the alphabet. */
  method MultipleChoice(choices: array<string>, correct: string, picks: seq<nat>, reorder: bool := true)
    returns (key: Result<string>)
    requires reorder ==> Draws(picks, choices.Length)
    modifies choices
    ensures choices[..] == if reorder then Shuffled(old(choices[..]), picks, choices.Length - 1) else old(choices[..])
    ensures multiset(choices[..]) == multiset(old(choices[..]))
    ensures key.Err? ==> (key.error == ValueError <==> correct !in old(choices[..]))
    ensures key.Ok? <==> KeyLetter(choices[..], correct).Ok?
    ensures key.Err? ==> key.error == KeyLetter(choices[..], correct).error
    ensures key.Ok? ==> key.value == [KeyLetter(choices[..], correct).value] + ". " + correct
  {
    if reorder {
      Shuffle(choices, picks);
      ShuffledPermutation(old(choices[..]), picks, choices.Length - 1);
    }
    assert correct in choices[..] <==> correct in multiset(choices[..]);
    match KeyLetter(choices[..], correct)
    case Err(e) =>
      key := Err(e);
    case Ok(letter) =>
      key := Ok([letter] + ". " + correct);
  }
}
