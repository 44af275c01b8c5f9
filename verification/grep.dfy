/** The regular expression matcher of xv6's grep (grep.c): ^ at the start, $ at the end, '.', c* and literals.
    A C string is the sequence of its characters; reading at its end gives the terminator. */
module Grep {

  datatype Item = One(c: char) | Many(c: char) | End

  /** What a pattern behind an optional ^ is made of. */
  function Items(re: string): seq<Item> {
    if re == "" then []
    else if |re| > 1 && re[1] == '*' then [Many(re[0])] + Items(re[2..])
    else if re == "$" then [End]
    else [One(re[0])] + Items(re[1..])
  }

  predicate Fits(c: char, x: char) {
    c == '.' || c == x
  }

  /** The words a single item denotes. */
  predicate Denotes(it: Item, w: string) {
    match it
    case One(c) => |w| == 1 && Fits(c, w[0])
    case Many(c) => forall k :: 0 <= k < |w| ==> Fits(c, w[k])
    case End => w == ""
  }

  /** Item k takes the text between cuts k and k + 1. */
  predicate Takes(items: seq<Item>, text: string, cuts: seq<nat>, k: nat)
    requires k < |items| && |cuts| == |items| + 1
  {
    cuts[k] <= cuts[k + 1] <= |text| && Denotes(items[k], text[cuts[k]..cuts[k + 1]])
  }

  /** cuts divides text[a..b] into one word per item. */
  ghost predicate Divides(items: seq<Item>, text: string, a: nat, b: nat, cuts: seq<nat>) {
    && |cuts| == |items| + 1 && cuts[0] == a && cuts[|items|] == b
    && forall k: nat :: k < |items| ==> Takes(items, text, cuts, k)
  }

  /** The word w is in the language of the items: it is the concatenation of one word of each. */
  ghost predicate InLanguage(items: seq<Item>, w: string) {
    exists cuts: seq<nat> :: Divides(items, w, 0, |w|, cuts)
  }

  predicate EndAnchored(items: seq<Item>) {
    items != [] && items[|items| - 1] == End
  }

  /** text[a..b] is a match: in the language, and reaching the end of the text if the pattern demands it. */
  ghost predicate Match(items: seq<Item>, text: string, a: nat, b: nat) {
    && a <= b <= |text| && InLanguage(items, text[a..b])
    && (EndAnchored(items) ==> b == |text|)
  }

  ghost predicate MatchFrom(items: seq<Item>, text: string, a: nat) {
    exists b: nat :: Match(items, text, a, b)
  }

  /** grep's promise: some part of the text matches, a prefix if the pattern starts with ^. */
  ghost predicate Matches(re: string, text: string) {
    if re != "" && re[0] == '^' then MatchFrom(Items(re[1..]), text, 0)
    else exists a: nat :: a <= |text| && MatchFrom(Items(re), text, a)
  }

  // ---- how matches of a pattern and of its tail are related --------------------------------------------------

  /** $ is an anchor only at the end of a pattern. */
  lemma {:induction false} EndOnlyLast(re: string)
    ensures forall k :: 0 <= k < |Items(re)| - 1 ==> !Items(re)[k].End?
  {
    if re == "" {
    } else if |re| > 1 && re[1] == '*' {
      EndOnlyLast(re[2..]);
    } else if re != "$" {
      EndOnlyLast(re[1..]);
    }
  }

  lemma SliceOfSlice(text: string, a: nat, b: nat, x: nat, y: nat)
    requires a <= b <= |text| && x <= y <= b - a
    ensures text[a..b][x..y] == text[a + x..a + y]
  {
    var u, v := text[a..b][x..y], text[a + x..a + y];
    assert |u| == |v| && forall i :: 0 <= i < |u| ==> u[i] == v[i];
  }

  /** A division of the word text[a..b] is a division of that part of the text. */
  lemma ShiftedTo(items: seq<Item>, text: string, a: nat, b: nat, cuts: seq<nat>)
    requires a <= b <= |text| && Divides(items, text[a..b], 0, b - a, cuts)
    ensures Divides(items, text, a, b, seq(|cuts|, k requires 0 <= k < |cuts| => cuts[k] + a))
  {
    var w, moved := text[a..b], seq(|cuts|, k requires 0 <= k < |cuts| => cuts[k] + a);
    forall k: nat | k < |items|
      ensures Takes(items, text, moved, k)
    {
      assert Takes(items, w, cuts, k);
      SliceOfSlice(text, a, b, cuts[k], cuts[k + 1]);
    }
  }

  lemma ShiftedBack(items: seq<Item>, text: string, a: nat, b: nat, cuts: seq<nat>)
    requires a <= b <= |text| && Divides(items, text, a, b, cuts)
    ensures InLanguage(items, text[a..b])
  {
    CutsInside(items, text, a, b, cuts);
    var w := text[a..b];
    var moved: seq<nat> := seq(|cuts|, k requires 0 <= k < |cuts| => cuts[k] - a);
    forall k: nat | k < |items|
      ensures Takes(items, w, moved, k)
    {
      assert Takes(items, text, cuts, k);
      SliceOfSlice(text, a, b, moved[k], moved[k + 1]);
    }
    assert Divides(items, w, 0, |w|, moved);
  }

  lemma Shifted(items: seq<Item>, text: string, a: nat, b: nat)
    requires a <= b <= |text|
    ensures InLanguage(items, text[a..b]) <==> exists cuts: seq<nat> :: Divides(items, text, a, b, cuts)
  {
    var w := text[a..b];
    if cuts: seq<nat> :| Divides(items, w, 0, |w|, cuts) {
      ShiftedTo(items, text, a, b, cuts);
    }
    if cuts: seq<nat> :| Divides(items, text, a, b, cuts) {
      ShiftedBack(items, text, a, b, cuts);
    }
  }

  lemma {:induction false} CutsOrdered(items: seq<Item>, text: string, a: nat, b: nat, cuts: seq<nat>, j: nat, k: nat)
    requires Divides(items, text, a, b, cuts) && j <= k < |cuts|
    ensures cuts[j] <= cuts[k]
    decreases k - j
  {
    if j < k {
      CutsOrdered(items, text, a, b, cuts, j, k - 1);
      assert Takes(items, text, cuts, k - 1);
    }
  }

  lemma CutsInside(items: seq<Item>, text: string, a: nat, b: nat, cuts: seq<nat>)
    requires Divides(items, text, a, b, cuts)
    ensures forall k :: 0 <= k < |cuts| ==> a <= cuts[k] <= b
  {
    forall k | 0 <= k < |cuts|
      ensures a <= cuts[k] <= b
    {
      CutsOrdered(items, text, a, b, cuts, 0, k);
      CutsOrdered(items, text, a, b, cuts, k, |items|);
    }
  }

  /** A pattern matches at a iff its first item takes text[a..m] and the rest matches at m. */
  lemma HeadThenTail(it: Item, rest: seq<Item>, text: string, a: nat)
    requires a <= |text| && (it == End ==> rest == [])
    ensures MatchFrom([it] + rest, text, a) <==>
              exists m: nat ::
                && a <= m <= |text| && Denotes(it, text[a..m]) && MatchFrom(rest, text, m)
                && (it == End ==> m == |text|)
  {
    var items := [it] + rest;
    assert items[1..] == rest;
    if MatchFrom(items, text, a) {
      var b: nat :| Match(items, text, a, b);
      TailMatches(items, text, a, b);
    }
    if m: nat :| a <= m <= |text| && Denotes(it, text[a..m]) && MatchFrom(rest, text, m)
                 && (it == End ==> m == |text|) {
      var b: nat :| Match(rest, text, m, b);
      HeadMatches(it, rest, text, a, m, b);
    }
  }

  lemma TailMatches(items: seq<Item>, text: string, a: nat, b: nat)
    requires items != [] && Match(items, text, a, b)
    ensures exists m: nat ::
              && a <= m <= |text| && Denotes(items[0], text[a..m]) && MatchFrom(items[1..], text, m)
              && (items == [End] ==> m == |text|)
  {
    hide InLanguage, Denotes;
    Shifted(items, text, a, b);
    var cuts: seq<nat> :| Divides(items, text, a, b, cuts);
    CutsInside(items, text, a, b, cuts);
    var m, tail := cuts[1], items[1..];
    forall k: nat | k < |tail|
      ensures Takes(tail, text, cuts[1..], k)
    {
      assert Takes(items, text, cuts, k + 1);
    }
    assert Divides(tail, text, m, b, cuts[1..]);
    Shifted(tail, text, m, b);
    assert Match(tail, text, m, b);
    assert Takes(items, text, cuts, 0);
  }

  lemma HeadMatches(it: Item, rest: seq<Item>, text: string, a: nat, m: nat, b: nat)
    requires a <= m <= |text| && Denotes(it, text[a..m]) && Match(rest, text, m, b)
    requires it == End ==> rest == [] && m == |text|
    ensures Match([it] + rest, text, a, b)
  {
    hide InLanguage, Denotes;
    var items := [it] + rest;
    Shifted(rest, text, m, b);
    var cuts: seq<nat> :| Divides(rest, text, m, b, cuts);
    CutsInside(rest, text, m, b, cuts);
    var all := [a] + cuts;
    forall k: nat | k < |items|
      ensures Takes(items, text, all, k)
    {
      if k > 0 {
        assert Takes(rest, text, cuts, k - 1);
      }
    }
    assert Divides(items, text, a, b, all);
    Shifted(items, text, a, b);
  }

  lemma NothingMatchesAnywhere(text: string, a: nat)
    requires a <= |text|
    ensures MatchFrom([], text, a)
  {
    var w := text[a..a];
    assert Divides([], w, 0, |w|, [0]);
    assert Match([], text, a, a);
  }

  /** The tests of matchhere, read off the first item. */
  lemma DollarCase(text: string, t: nat)
    requires t <= |text|
    ensures MatchFrom(Items("$"), text, t) <==> t == |text|
  {
    hide MatchFrom;
    assert Items("$") == [End] + [];
    HeadThenTail(End, [], text, t);
    NothingMatchesAnywhere(text, |text|);
    assert t == |text| ==> text[t..t] == "";
    assert t < |text| ==> text[t..|text|] != "";
  }

  lemma ItemsOfNothing(re: string)
    requires re == ""
    ensures Items(re) == []
  {
  }

  predicate Starred(re: string) {
    |re| > 1 && re[1] == '*'
  }

  lemma OneCase(re: string, text: string, t: nat)
    requires t <= |text| && re != "" && !Starred(re) && re != "$"
    ensures MatchFrom(Items(re), text, t) <==>
              t < |text| && Fits(re[0], text[t]) && MatchFrom(Items(re[1..]), text, t + 1)
  {
    var c, rest := re[0], Items(re[1..]);
    assert Items(re) == [One(c)] + rest;
    hide MatchFrom, Items;
    HeadThenTail(One(c), rest, text, t);
    if t < |text| && Fits(c, text[t]) && MatchFrom(rest, text, t + 1) {
      assert Denotes(One(c), text[t..t + 1]);
    }
  }

  /** c* takes any run of fitting characters. */
  ghost predicate StarFrom(c: char, rest: seq<Item>, text: string, t: nat) {
    exists m: nat :: t <= m <= |text| && Run(c, text, t, m) && MatchFrom(rest, text, m)
  }

  predicate Run(c: char, text: string, a: nat, b: nat) {
    a <= b <= |text| && forall k :: a <= k < b ==> Fits(c, text[k])
  }

  lemma StarCase(re: string, text: string, t: nat)
    requires t <= |text| && Starred(re)
    ensures MatchFrom(Items(re), text, t) <==> StarFrom(re[0], Items(re[2..]), text, t)
  {
    var c, rest := re[0], Items(re[2..]);
    assert Items(re) == [Many(c)] + rest;
    hide MatchFrom, Items;
    HeadThenTail(Many(c), rest, text, t);
    forall m: nat | t <= m <= |text|
      ensures Denotes(Many(c), text[t..m]) <==> Run(c, text, t, m)
    {
      assert forall k :: t <= k < m ==> text[k] == text[t..m][k - t];
    }
  }

  // ---- patterns without a star ---------------------------------------------------------------------------------

  predicate Plain(re: string) {
    forall k :: 0 <= k < |re| ==> re[k] !in "*$^"
  }

  /** The text has the characters of re from position t on, with anything for a '.'. */
  predicate Spells(re: string, text: string, t: nat) {
    t + |re| <= |text| && forall k :: 0 <= k < |re| ==> re[k] == '.' || re[k] == text[t + k]
  }

  lemma {:induction false} PlainFrom(re: string, tail: string, text: string, t: nat)
    requires Plain(re) && (tail == "" || tail == "$") && t <= |text|
    ensures MatchFrom(Items(re + tail), text, t) <==> Spells(re, text, t) && (tail == "$" ==> t + |re| == |text|)
    decreases |re|
  {
    hide MatchFrom, Items;
    if re == "" {
      assert re + tail == tail;
      ItemsOfNothing("");
      NothingMatchesAnywhere(text, t);
      DollarCase(text, t);
    } else {
      assert re[0] !in "*$^" && (re + tail)[1..] == re[1..] + tail;
      OneCase(re + tail, text, t);
      if t < |text| {
        PlainFrom(re[1..], tail, text, t + 1);
        assert Spells(re, text, t) <==> Fits(re[0], text[t]) && Spells(re[1..], text, t + 1);
      }
    }
  }

  /** Without a star a pattern is searched for as it stands, '.' standing for any one character; ^ keeps it to the start
      of the text and $ to the end. */
  lemma PlainPatterns(re: string, text: string)
    requires Plain(re)
    ensures Matches(re, text) <==> exists a: nat :: Spells(re, text, a)
    ensures Matches("^" + re, text) <==> Spells(re, text, 0)
    ensures Matches(re + "$", text) <==> |re| <= |text| && Spells(re, text, |text| - |re|)
    ensures Matches("^" + re + "$", text) <==> |re| == |text| && Spells(re, text, 0)
  {
    hide MatchFrom, Items;
    forall a: nat | a <= |text|
      ensures MatchFrom(Items(re), text, a) <==> Spells(re, text, a)
      ensures MatchFrom(Items(re + "$"), text, a) <==> Spells(re, text, a) && a + |re| == |text|
    {
      PlainFrom(re, "", text, a);
      assert re + "" == re;
      PlainFrom(re, "$", text, a);
    }
    assert re != "" ==> re[0] !in "*$^";
    assert (re + "$")[0] != '^' && ("^" + re)[1..] == re && ("^" + re + "$")[1..] == re + "$";
  }

  /** A starred character that has the whole line to itself. */
  lemma StarredLine(c: char, text: string)
    ensures Matches("^" + [c] + "*$", text) <==> forall k :: 0 <= k < |text| ==> c == '.' || text[k] == c
  {
    hide MatchFrom, Items;
    var re := [c] + "*$";
    assert ("^" + [c] + "*$")[1..] == re && re[2..] == "$";
    StarCase(re, text, 0);
    forall m: nat | m <= |text|
      ensures MatchFrom(Items("$"), text, m) <==> m == |text|
    {
      DollarCase(text, m);
    }
    assert re[0] == c && ("^" + [c] + "*$")[0] == '^';
    if Run(c, text, 0, |text|) {
      assert MatchFrom(Items("$"), text, |text|);
    }
    assert StarFrom(c, Items("$"), text, 0) <==> Run(c, text, 0, |text|);
  }

  // ---- the matcher ---------------------------------------------------------------------------------------------

  /** matchhere: re from position r on, at position t of the text. */
  method MatchHere(re: string, r: nat, text: string, t: nat) returns (found: bool)
    requires r <= |re| && t <= |text|
    ensures found <==> MatchFrom(Items(re[r..]), text, t)
    decreases |re| - r, 0
  {
    hide MatchFrom, StarFrom, Items;
    if r == |re| {
      NothingMatchesAnywhere(text, t);
      ItemsOfNothing(re[r..]);
      return true;
    }
    if r + 1 < |re| && re[r + 1] == '*' {
      StarCase(re[r..], text, t);
      assert re[r..][2..] == re[r + 2..];
      found := MatchStar(re[r], re, r + 2, text, t);
      return;
    }
    if re[r] == '$' && r + 1 == |re| {
      assert re[r..] == "$";
      DollarCase(text, t);
      return t == |text|;
    }
    OneCase(re[r..], text, t);
    assert re[r..][1..] == re[r + 1..];
    if t < |text| && (re[r] == '.' || re[r] == text[t]) {
      found := MatchHere(re, r + 1, text, t + 1);
      return;
    }
    return false;
  }

  /** matchstar: c* followed by re from position r on. */
  method MatchStar(c: char, re: string, r: nat, text: string, t: nat) returns (found: bool)
    requires r <= |re| && t <= |text|
    ensures found <==> StarFrom(c, Items(re[r..]), text, t)
    decreases |re| - r, 1
  {
    var u := t;
    while true
      invariant t <= u <= |text| && Run(c, text, t, u)
      invariant forall m: nat :: t <= m < u ==> !MatchFrom(Items(re[r..]), text, m)
      decreases |text| - u
    {
      var here := MatchHere(re, r, text, u);
      if here {
        return true;
      }
      if !(u < |text| && (text[u] == c || c == '.')) {
        return false;
      }
      u := u + 1;
    }
  }

  /** match, the entry point. */
  method MatchText(re: string, text: string) returns (found: bool)
    ensures found <==> Matches(re, text)
  {
    if re != "" && re[0] == '^' {
      found := MatchHere(re, 1, text, 0);
      return;
    }
    assert re[0..] == re;
    var t := 0;
    while true
      invariant t <= |text|
      invariant forall a: nat :: a < t ==> !MatchFrom(Items(re), text, a)
      decreases |text| - t
    {
      var here := MatchHere(re, 0, text, t);
      if here {
        return true;
      }
      if t == |text| {
        return false;
      }
      t := t + 1;
    }
  }
}
