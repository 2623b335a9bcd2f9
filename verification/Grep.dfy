/** grep.c's matcher against a declarative reading of its patterns. A C string is the sequence of
    its characters before the terminator. */
module Grep {

  /** One piece of a pattern: a character ('.' for any), a repeated character, or a final '$'. */
  datatype Item = One(c: char) | Star(c: char) | End

  function Parse(re: string): (items: seq<Item>)
    ensures forall i :: 0 <= i < |items| - 1 ==> !items[i].End?
  {
    if re == "" then []
    else if |re| > 1 && re[1] == '*' then [Star(re[0])] + Parse(re[2..])
    else if re == "$" then [End]
    else [One(re[0])] + Parse(re[1..])
  }

  /** A piece as it is written. */
  function Text(it: Item): (u: string) {
    match it
    case One(c) => [c]
    case Star(c) => [c, '*']
    case End => "$"
  }

  function Written(items: seq<Item>): (re: string) {
    if items == [] then "" else Text(items[0]) + Written(items[1..])
  }

  /** Pieces that are not read as others when written down: no character before a '*', a '$' that ends
      the text only at the end, and none that is a character there. */
  predicate Proper(items: seq<Item>) {
    items != [] ==>
      && (items[0].One? && |items| > 1 ==> Text(items[1])[0] != '*')
      && (items[0].End? ==> |items| == 1) && (items[0] == One('$') ==> |items| > 1)
      && Proper(items[1..])
  }

  lemma {:induction false} ReadBack(items: seq<Item>)
    requires Proper(items)
    ensures Parse(Written(items)) == items
  {
    if items != [] {
      var re, more := Written(items), Written(items[1..]);
      ReadBack(items[1..]);
      if items[0].Star? {
        assert re[2..] == more;
      } else if items[0].One? {
        assert re[1..] == more;
        if |items| > 1 {
          assert more == Text(items[1]) + Written(items[1..][1..]);
        }
      }
      assert items == [items[0]] + items[1..];
    }
  }

  lemma {:induction false} WrittenBack(re: string)
    ensures Written(Parse(re)) == re && Proper(Parse(re)) && (re != "" ==> Parse(re) != [] && Text(Parse(re)[0])[0] == re[0])
  {
    if re != "" {
      if |re| > 1 && re[1] == '*' {
        WrittenBack(re[2..]);
        assert ([Star(re[0])] + Parse(re[2..]))[1..] == Parse(re[2..]);
        assert [re[0], '*'] + re[2..] == re;
      } else if re == "$" {
        assert Written([End]) == "$" + Written([End][1..]);
      } else {
        WrittenBack(re[1..]);
        assert ([One(re[0])] + Parse(re[1..]))[1..] == Parse(re[1..]);
        assert [re[0]] + re[1..] == re;
      }
    }
  }

  /** A pattern is read as the pieces it is written with, and there is only one such list. */
  lemma ParseIff(re: string, items: seq<Item>)
    ensures Parse(re) == items <==> Written(items) == re && Proper(items)
  {
    WrittenBack(re);
    if Written(items) == re && Proper(items) {
      ReadBack(items);
    }
  }

  /** A pattern character stands for a text character. */
  predicate Stands(c: char, t: char) { c == '.' || c == t }

  /** The stretches of text a piece can cover. */
  predicate Covers(it: Item, u: string) {
    match it
    case One(c) => |u| == 1 && Stands(c, u[0])
    case Star(c) => forall i :: 0 <= i < |u| ==> Stands(c, u[i])
    case End => u == ""
  }

  function Concat(us: seq<string>): (u: string) {
    if us == [] then "" else us[0] + Concat(us[1..])
  }

  /** us are stretches, one for each piece, that lie one after the other at the start of t; a final
      '$' asks that nothing is left. */
  ghost predicate Fits(items: seq<Item>, us: seq<string>, t: string) {
    && |us| == |items|
    && (forall i :: 0 <= i < |items| ==> Covers(items[i], us[i]))
    && Concat(us) <= t
    && (items != [] && items[|items| - 1].End? ==> Concat(us) == t)
  }

  ghost predicate MatchesHere(items: seq<Item>, t: string) { exists us :: Fits(items, us, t) }

  /** What grep promises: some part of the text, its beginning if the pattern starts with '^'. */
  ghost predicate Matches(re: string, t: string) {
    if re != "" && re[0] == '^' then MatchesHere(Parse(re[1..]), t)
    else exists i :: 0 <= i <= |t| && MatchesHere(Parse(re), t[i..])
  }

  // ---------------------------------------------------------------- one piece at a time

  lemma NothingLeft(t: string)
    ensures MatchesHere([], t) && (MatchesHere([End], t) <==> t == "")
  {
    assert Fits([], [], t);
    if t == "" {
      assert Concat([""]) == "";
      assert Fits([End], [""], t);
    }
    if us :| Fits([End], us, t) {
      assert Covers(End, us[0]) && us == [us[0]] && us[1..] == [];
      assert Concat(us) == "";
    }
  }

  /** Adding a stretch in front. */
  lemma FitsFront(it: Item, rest: seq<Item>, u: string, us: seq<string>, t: string)
    requires !it.End? && Covers(it, u) && Fits(rest, us, t)
    ensures MatchesHere([it] + rest, u + t)
  {
    assert ([u] + us)[1..] == us;
    assert Concat([u] + us) == u + Concat(us);
    assert t == Concat(us) + t[|Concat(us)|..];
    assert u + t == u + Concat(us) + t[|Concat(us)|..];
    assert Fits([it] + rest, [u] + us, u + t);
  }

  /** Taking the first stretch away. */
  lemma FitsTail(it: Item, rest: seq<Item>, us: seq<string>, t: string)
    requires !it.End? && Fits([it] + rest, us, t)
    ensures us != [] && Covers(it, us[0]) && us[0] <= t && Fits(rest, us[1..], t[|us[0]|..])
  {
    assert Concat(us) == us[0] + Concat(us[1..]);
    forall i | 0 <= i < |rest| ensures Covers(rest[i], us[1..][i]) {
      assert Covers(([it] + rest)[i + 1], us[i + 1]);
    }
  }

  lemma OneFirst(c: char, rest: seq<Item>, t: string)
    ensures MatchesHere([One(c)] + rest, t) <==> t != "" && Stands(c, t[0]) && MatchesHere(rest, t[1..])
  {
    if us :| Fits([One(c)] + rest, us, t) {
      FitsTail(One(c), rest, us, t);
    }
    if t != "" && Stands(c, t[0]) && MatchesHere(rest, t[1..]) {
      var us :| Fits(rest, us, t[1..]);
      FitsFront(One(c), rest, [t[0]], us, t[1..]);
      assert [t[0]] + t[1..] == t;
    }
  }

  /** The first k characters can be covered by c*. */
  predicate Run(c: char, t: string, k: nat) { k <= |t| && forall j :: 0 <= j < k ==> Stands(c, t[j]) }

  lemma StarFirst(c: char, rest: seq<Item>, t: string)
    ensures MatchesHere([Star(c)] + rest, t) <==> exists k: nat :: Run(c, t, k) && MatchesHere(rest, t[k..])
  {
    if us :| Fits([Star(c)] + rest, us, t) {
      FitsTail(Star(c), rest, us, t);
      assert Run(c, t, |us[0]|) && MatchesHere(rest, t[|us[0]|..]);
    }
    if k: nat :| Run(c, t, k) && MatchesHere(rest, t[k..]) {
      var us :| Fits(rest, us, t[k..]);
      FitsFront(Star(c), rest, t[..k], us, t[k..]);
      assert t[..k] + t[k..] == t;
    }
  }

  // ---------------------------------------------------------------- the matcher

  method Matchhere(re: string, text: string) returns (r: bool)
    ensures r == MatchesHere(Parse(re), text)
    decreases |re|, 0
  {
    if re == "" {
      NothingLeft(text);
      return true;
    }
    if |re| > 1 && re[1] == '*' {
      StarFirst(re[0], Parse(re[2..]), text);
      r := Matchstar(re[0], re[2..], text);
      return;
    }
    if re[0] == '$' && |re| == 1 {
      NothingLeft(text);
      return text == "";
    }
    OneFirst(re[0], Parse(re[1..]), text);
    if text != "" && (re[0] == '.' || re[0] == text[0]) {
      r := Matchhere(re[1..], text[1..]);
      return;
    }
    return false;
  }

  method Matchstar(c: char, re: string, text: string) returns (r: bool)
    ensures r == exists k: nat :: Run(c, text, k) && MatchesHere(Parse(re), text[k..])
    decreases |re|, 1
  {
    var i := 0;
    while true
      invariant i <= |text| && Run(c, text, i)
      invariant forall k: nat :: k < i ==> !MatchesHere(Parse(re), text[k..])
      decreases |text| - i
    {
      var here := Matchhere(re, text[i..]);
      if here {
        return true;
      }
      if i == |text| || !(text[i] == c || c == '.') {
        return false;
      }
      i := i + 1;
    }
  }

  method Match(re: string, text: string) returns (r: bool)
    ensures r == Matches(re, text)
  {
    if re != "" && re[0] == '^' {
      r := Matchhere(re[1..], text);
      return;
    }
    var i := 0;
    while true
      invariant i <= |text|
      invariant forall k :: 0 <= k < i ==> !MatchesHere(Parse(re), text[k..])
      decreases |text| - i
    {
      var here := Matchhere(re, text[i..]);
      if here {
        return true;
      }
      if i == |text| {
        return false;
      }
      i := i + 1;
    }
  }
}
