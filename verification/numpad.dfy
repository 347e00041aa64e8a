/**
 * `NumpadInput`: a four-slot code entry. Each key press fills the first
 * free slot ("X"), "enter" hands the concatenated slots to the chest and
 * starts over, and the display shows the slots separated by spaces. The
 * slots come from splitting the reset text at its spaces.
 */
module Numpad {
  import opened Wrappers

  const Free := "X"
  const ResetText := "X X X X"

  /** `string.Split(c)`: the pieces between the separators, empty ones included. */
  function Split(s: string, c: char): (r: seq<string>)
    ensures |r| > 0 && forall k :: 0 <= k < |r| ==> c !in r[k]
    decreases |s|
  {
    if c !in s then [s]
    else
      var i := FirstIndex(s, c);
      [s[..i]] + Split(s[i + 1..], c)
  }

  function FirstIndex(s: string, c: char): (i: nat)
    requires c in s
    ensures i < |s| && s[i] == c && c !in s[..i]
    decreases |s|
  {
    if s[0] == c then 0
    else
      assert c in s[1..] by { assert s == [s[0]] + s[1..]; }
      var j := FirstIndex(s[1..], c);
      assert s[..j + 1] == [s[0]] + s[1..][..j];
      j + 1
  }

  /** The display text of `Update`: the slots, a space after every one but the last. */
  function Display(slots: seq<string>): string
    decreases |slots|
  {
    if |slots| == 0 then ""
    else if |slots| == 1 then slots[0]
    else slots[0] + " " + Display(slots[1..])
  }

  /** Splitting at the first separator: the piece before it, then the split of the rest. */
  lemma SplitFirst(x: string, rest: string)
    requires ' ' !in x
    ensures Split(x + " " + rest, ' ') == [x] + Split(rest, ' ')
  {
    var s := x + " " + rest;
    assert s[|x|] == ' ';
    var i := FirstIndex(s, ' ');
    assert i == |x|;
    assert s[..i] == x;
    assert s[i + 1..] == rest;
  }

  /** Splitting the display at its spaces gives the slots back, when no slot holds a space. */
  lemma {:induction false} SplitDisplay(slots: seq<string>)
    requires |slots| > 0 && forall k :: 0 <= k < |slots| ==> ' ' !in slots[k]
    ensures Split(Display(slots), ' ') == slots
    decreases |slots|
  {
    if |slots| > 1 {
      SplitFirst(slots[0], Display(slots[1..]));
      SplitDisplay(slots[1..]);
      assert slots == [slots[0]] + slots[1..];
    }
  }

  /** Joining the pieces of a split with spaces gives the string back. */
  lemma {:induction false} DisplaySplit(s: string)
    ensures Display(Split(s, ' ')) == s
    decreases |s|
  {
    if ' ' in s {
      var i := FirstIndex(s, ' ');
      var rest := s[i + 1..];
      DisplaySplit(rest);
      SplitAtFirst(s, i);
      DisplayCons(s[..i], Split(rest, ' '));
      assert s == s[..i] + " " + rest;
    }
  }

  lemma SplitAtFirst(s: string, i: nat)
    requires ' ' in s && i == FirstIndex(s, ' ')
    ensures Split(s, ' ') == [s[..i]] + Split(s[i + 1..], ' ')
  {
  }

  lemma DisplayCons(x: string, rest: seq<string>)
    requires |rest| > 0
    ensures Display([x] + rest) == x + " " + Display(rest)
  {
    assert ([x] + rest)[1..] == rest;
  }

  /** `ResetNumpad`: the slots of the reset text, four free slots. */
  function Reset(): (slots: seq<string>)
    ensures slots == [Free, Free, Free, Free]
    ensures Display(slots) == ResetText
  {
    ResetDisplay();
    ResetSplit();
    Split(ResetText, ' ')
  }

  /** The reset text splits into four free slots. */
  lemma ResetSplit()
    ensures Split(ResetText, ' ') == [Free, Free, Free, Free]
  {
    var four := [Free, Free, Free, Free];
    assert ' ' !in Free;
    assert forall k :: 0 <= k < |four| ==> four[k] == Free;
    SplitDisplay(four);
    ResetDisplay();
  }

  lemma ResetDisplay()
    ensures Display([Free, Free, Free, Free]) == ResetText
  {
    var f := Free;
    assert Display([f]) == f;
    DisplayCons(f, [f]);
    assert [f] + [f] == [f, f];
    DisplayCons(f, [f, f]);
    assert [f] + [f, f] == [f, f, f];
    DisplayCons(f, [f, f, f]);
    assert [f] + [f, f, f] == [f, f, f, f];
    assert f + " " + (f + " " + (f + " " + f)) == ResetText;
  }

  /** `ToLower` on ASCII letters; other characters are kept. */
  function Lower(s: string): (r: string)
    ensures |r| == |s|
    ensures forall k :: 0 <= k < |s| ==> r[k] == if 'A' <= s[k] <= 'Z' then (s[k] as int + 32) as char else s[k]
    decreases |s|
  {
    if |s| == 0 then ""
    else [if 'A' <= s[0] <= 'Z' then (s[0] as int + 32) as char else s[0]] + Lower(s[1..])
  }

  function Concat(slots: seq<string>): string
    decreases |slots|
  {
    if |slots| == 0 then "" else slots[0] + Concat(slots[1..])
  }

  lemma ConcatCons(x: string, rest: seq<string>)
    ensures Concat([x] + rest) == x + Concat(rest)
  {
    assert ([x] + rest)[1..] == rest;
  }

  /** The position of the first free slot, or the slot count when none is free. */
  function FirstFree(slots: seq<string>): (i: nat)
    ensures i <= |slots| && Free !in slots[..i] && (i < |slots| ==> slots[i] == Free)
    ensures i == |slots| <==> Free !in slots
    decreases |slots|
  {
    if |slots| == 0 then 0
    else if slots[0] == Free then 0
    else
      var j := FirstFree(slots[1..]);
      assert slots[..j + 1] == [slots[0]] + slots[1..][..j];
      assert slots == [slots[0]] + slots[1..];
      j + 1
  }

  /** The first free slot takes the key; with no free slot nothing changes. */
  function FillFirst(slots: seq<string>, key: string): (r: seq<string>)
    ensures |r| == |slots|
    ensures r == if FirstFree(slots) < |slots| then slots[FirstFree(slots) := key] else slots
    decreases |slots|
  {
    if |slots| == 0 then slots
    else if slots[0] == Free then slots[0 := key]
    else
      var rest := FillFirst(slots[1..], key);
      assert slots == [slots[0]] + slots[1..];
      [slots[0]] + rest
  }

  /** `EnterText`: the new slots, and the code handed to the chest when the key is "enter" in any case. */
  function EnterText(slots: seq<string>, key: string): (r: (seq<string>, Option<string>))
    ensures Lower(key) == "enter" ==> r == (Reset(), Some(Concat(slots)))
    ensures Lower(key) != "enter" ==> r == (FillFirst(slots, key), None)
  {
    if Lower(key) == "enter" then (Reset(), Some(Concat(slots))) else (FillFirst(slots, key), None)
  }

  /** A key fills the slot after the taken ones. */
  lemma FillAfter(pre: seq<string>, key: string, post: seq<string>)
    requires Free !in pre
    ensures FillFirst(pre + [Free] + post, key) == pre + [key] + post
  {
    var slots := pre + [Free] + post;
    assert slots[..|pre|] == pre;
    FirstFreeAt(slots, |pre|);
    assert slots[|pre| := key] == pre + [key] + post;
  }

  /** A free slot with none before it is the first free one. */
  lemma FirstFreeAt(slots: seq<string>, n: nat)
    requires n < |slots| && slots[n] == Free && Free !in slots[..n]
    ensures FirstFree(slots) == n
  {
  }

  /** The `n`-th key of a fresh entry goes to slot `n`. */
  lemma FillSecond(a: string, b: string)
    requires a != Free
    ensures FillFirst([a, Free, Free, Free], b) == [a, b, Free, Free]
  {
    FillAfter([a], b, [Free, Free]);
    assert [a, Free, Free, Free] == [a] + [Free] + [Free, Free];
  }

  lemma FillThird(a: string, b: string, c: string)
    requires a != Free && b != Free
    ensures FillFirst([a, b, Free, Free], c) == [a, b, c, Free]
  {
    FillAfter([a, b], c, [Free]);
    assert [a, b, Free, Free] == [a, b] + [Free] + [Free];
  }

  lemma FillFourth(a: string, b: string, c: string, d: string)
    requires a != Free && b != Free && c != Free
    ensures FillFirst([a, b, c, Free], d) == [a, b, c, d]
  {
    FillAfter([a, b, c], d, []);
    assert [a, b, c, Free] == [a, b, c] + [Free] + [];
  }

  /** Four keys that are not free markers fill the four slots in order. */
  lemma FourKeysFill(a: string, b: string, c: string, d: string)
    requires a != Free && b != Free && c != Free && d != Free
    ensures FillFirst(FillFirst(FillFirst(FillFirst(Reset(), a), b), c), d) == [a, b, c, d]
  {
    FillFirstKey(a);
    var s1 := FillFirst(Reset(), a);
    FillSecond(a, b);
    var s2 := FillFirst(s1, b);
    FillThird(a, b, c);
    var s3 := FillFirst(s2, c);
    FillFourth(a, b, c, d);
  }

  lemma FillFirstKey(a: string)
    ensures FillFirst(Reset(), a) == [a, Free, Free, Free]
  {
    var r := Reset();
    FreeFirstSlot(r, a);
  }

  lemma FreeFirstSlot(r: seq<string>, a: string)
    requires r == [Free, Free, Free, Free]
    ensures r[0] == Free && r[0 := a] == [a, Free, Free, Free]
  {
  }

  lemma ConcatFour(a: string, b: string, c: string, d: string)
    ensures Concat([a, b, c, d]) == a + b + c + d
  {
    ConcatCons(d, []);
    assert [c, d] == [c] + [d];
    ConcatCons(c, [d]);
    assert [b, c, d] == [b] + [c, d];
    ConcatCons(b, [c, d]);
    assert [a, b, c, d] == [a] + [b, c, d];
    ConcatCons(a, [b, c, d]);
  }

  /** Four keys that are neither free markers nor "enter", then "enter", open the chest with their concatenation. */
  lemma FourKeysThenEnter(a: string, b: string, c: string, d: string)
    requires a != Free && b != Free && c != Free && d != Free
    requires Lower(a) != "enter" && Lower(b) != "enter" && Lower(c) != "enter" && Lower(d) != "enter"
    ensures var s1 := EnterText(Reset(), a).0;
            var s2 := EnterText(s1, b).0;
            var s3 := EnterText(s2, c).0;
            var s4 := EnterText(s3, d).0;
            s4 == [a, b, c, d] && EnterText(s4, "Enter") == (Reset(), Some(a + b + c + d))
  {
    var s1 := EnterText(Reset(), a).0;
    var s2 := EnterText(s1, b).0;
    var s3 := EnterText(s2, c).0;
    var s4 := EnterText(s3, d).0;
    assert s4 == FillFirst(FillFirst(FillFirst(FillFirst(Reset(), a), b), c), d);
    FourKeysFill(a, b, c, d);
    ConcatFour(a, b, c, d);
    EnterKey();
  }

  lemma EnterKey()
    ensures Lower("Enter") == "enter"
  {
  }

  /** A fifth key is ignored. */
  lemma FullIgnoresKeys(slots: seq<string>, key: string)
    requires Free !in slots && Lower(key) != "enter"
    ensures EnterText(slots, key) == (slots, None)
  {
  }
}
