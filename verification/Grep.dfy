// The matcher of grep.c against a declarative meaning of its patterns.
module Grep {
  import opened Common

  // ---- What patterns mean ----

  datatype Item = One(c: char) | Star(c: char)

  // A pattern after its leading ^, if any: items in sequence, and whether a final $ ties the
  // match to the end of the text.
  datatype Pattern = Pattern(items: seq<Item>, atEnd: bool)

  function Parse(re: CString): Pattern {
    if re == "" then Pattern([], false)
    else if |re| >= 2 && re[1] == '*' then Parse(re[2..]).(items := [Star(re[0])] + Parse(re[2..]).items)
    else if re == "$" then Pattern([], true)
    else Parse(re[1..]).(items := [One(re[0])] + Parse(re[1..]).items)
  }

  predicate Hits(c: char, d: char) { c == '.' || c == d }

  predicate AllHit(c: char, w: string) { forall i | 0 <= i < |w| :: Hits(c, w[i]) }

  predicate Spells1(item: Item, w: string) {
    match item
    case One(c) => |w| == 1 && Hits(c, w[0])
    case Star(c) => AllHit(c, w)
  }

  // w can be cut into one piece per item.
  ghost predicate Spells(items: seq<Item>, w: string) {
    if items == [] then w == ""
    else exists k | 0 <= k <= |w| :: Spells1(items[0], w[..k]) && Spells(items[1..], w[k..])
  }

  // The pattern matches at the start of the text.
  ghost predicate AtStart(p: Pattern, text: string) {
    exists k | 0 <= k <= |text| :: Spells(p.items, text[..k]) && (p.atEnd ==> k == |text|)
  }

  // The pattern occurs in the text, from a to b.
  ghost predicate Occurs(re: CString, text: string, a: nat, b: nat)
    requires a <= b <= |text|
  {
    var anchored := re != "" && re[0] == '^';
    var p := Parse(if anchored then re[1..] else re);
    (anchored ==> a == 0) && (p.atEnd ==> b == |text|) && Spells(p.items, text[a..b])
  }

  ghost predicate Found(re: CString, text: string) {
    exists a: nat, b: nat | a <= b <= |text| :: Occurs(re, text, a, b)
  }

  // ---- The matcher ----

  method Match(re: CString, text: CString) returns (found: bool)
    ensures found <==> Found(re, text)
  {
    if re != "" && re[0] == '^' {
      found := MatchHere(re[1..], text);
      OccursAtStart(re, text, 0);
      assert text[0..] == text;
      return;
    }
    var i := 0;
    while true
      invariant 0 <= i <= |text|
      invariant forall a: nat, b: nat | a < i && a <= b <= |text| :: !Occurs(re, text, a, b)
      decreases |text| - i
    {
      found := MatchHere(re, text[i..]);
      OccursAtStart(re, text, i);
      if found {
        return true;
      }
      if i == |text| {
        return false;
      }
      i := i + 1;
    }
  }

  method MatchHere(re: CString, text: CString) returns (found: bool)
    ensures found <==> AtStart(Parse(re), text)
    decreases |re|, 0
  {
    if re == "" {
      assert Spells([], text[..0]);
      return true;
    }
    if |re| >= 2 && re[1] == '*' {
      StarFirst(re[0], Parse(re[2..]), text);
      found := MatchStar(re[0], re[2..], text);
      return;
    }
    if re == "$" {
      assert Spells([], text[..|text|]) <==> text == "";
      return text == "";
    }
    OneFirst(re[0], Parse(re[1..]), text);
    if text != "" && (re[0] == '.' || re[0] == text[0]) {
      found := MatchHere(re[1..], text[1..]);
      return;
    }
    return false;
  }

  method MatchStar(c: char, re: CString, text: CString) returns (found: bool)
    ensures found <==> exists m | 0 <= m <= |text| :: AllHit(c, text[..m]) && AtStart(Parse(re), text[m..])
    decreases |re|, 1
  {
    var i := 0;
    while true
      invariant 0 <= i <= |text| && AllHit(c, text[..i])
      invariant forall m | 0 <= m < i :: !AtStart(Parse(re), text[m..])
      decreases |text| - i
    {
      found := MatchHere(re, text[i..]);
      if found {
        return true;
      }
      if i == |text| {
        return false;
      }
      i := i + 1;
      if !(text[i - 1] == c || c == '.') {
        forall m | i <= m <= |text|
          ensures !AllHit(c, text[..m])
        {
          assert text[..m][i - 1] == text[i - 1];
        }
        return false;
      }
      assert text[..i] == text[..i - 1] + [text[i - 1]];
    }
  }

  // ---- One item at a time ----

  lemma OneFirst(c: char, p: Pattern, text: string)
    ensures AtStart(p.(items := [One(c)] + p.items), text) <==> text != "" && Hits(c, text[0]) && AtStart(p, text[1..])
  {
    var items := [One(c)] + p.items;
    assert items[0] == One(c) && items[1..] == p.items;
    if AtStart(p.(items := items), text) {
      var k :| 0 <= k <= |text| && Spells(items, text[..k]) && (p.atEnd ==> k == |text|);
      var j :| 0 <= j <= k && Spells1(items[0], text[..k][..j]) && Spells(p.items, text[..k][j..]);
      assert text[..k][j..] == text[1..][..k - 1];
    }
    if text != "" && Hits(c, text[0]) && AtStart(p, text[1..]) {
      var k :| 0 <= k <= |text[1..]| && Spells(p.items, text[1..][..k]) && (p.atEnd ==> k == |text[1..]|);
      var w := text[..k + 1];
      assert w[1..] == text[1..][..k] && Spells1(items[0], w[..1]);
      assert Spells(items, w);
    }
  }

  lemma StarFirst(c: char, p: Pattern, text: string)
    ensures AtStart(p.(items := [Star(c)] + p.items), text) <==>
            exists m | 0 <= m <= |text| :: AllHit(c, text[..m]) && AtStart(p, text[m..])
  {
    var items := [Star(c)] + p.items;
    assert items[0] == Star(c) && items[1..] == p.items;
    if AtStart(p.(items := items), text) {
      var k :| 0 <= k <= |text| && Spells(items, text[..k]) && (p.atEnd ==> k == |text|);
      var m :| 0 <= m <= k && Spells1(items[0], text[..k][..m]) && Spells(p.items, text[..k][m..]);
      assert text[..k][..m] == text[..m] && text[..k][m..] == text[m..][..k - m];
      assert AllHit(c, text[..m]) && AtStart(p, text[m..]);
    }
    if m :| 0 <= m <= |text| && AllHit(c, text[..m]) && AtStart(p, text[m..]) {
      var k :| 0 <= k <= |text[m..]| && Spells(p.items, text[m..][..k]) && (p.atEnd ==> k == |text[m..]|);
      var w := text[..m + k];
      assert w[m..] == text[m..][..k] && w[..m] == text[..m];
      assert Spells(items, w);
    }
  }

  // An occurrence that begins at a is a match at the start of the rest.
  lemma OccursAtStart(re: CString, text: string, a: nat)
    requires a <= |text|
    ensures
      var anchored := re != "" && re[0] == '^';
      (exists b: nat | a <= b <= |text| :: Occurs(re, text, a, b)) <==>
      (anchored ==> a == 0) && AtStart(Parse(if anchored then re[1..] else re), text[a..])
  {
    var anchored := re != "" && re[0] == '^';
    var p := Parse(if anchored then re[1..] else re);
    if b: nat :| a <= b <= |text| && Occurs(re, text, a, b) {
      assert text[a..][..b - a] == text[a..b];
    }
    if (anchored ==> a == 0) && AtStart(p, text[a..]) {
      var k :| 0 <= k <= |text[a..]| && Spells(p.items, text[a..][..k]) && (p.atEnd ==> k == |text[a..]|);
      assert text[a..][..k] == text[a..a + k];
      assert Occurs(re, text, a, a + k);
    }
  }

  // ---- Patterns in plain terms ----

  // Without *, ^ and $.
  predicate Simple(x: string) { forall j | 0 <= j < |x| :: x[j] !in "*^$\0" }

  // x stands in the text at position a, a dot for any character.
  predicate At(x: string, text: string, a: nat) {
    a + |x| <= |text| && forall j | 0 <= j < |x| :: x[j] == '.' || x[j] == text[a + j]
  }

  // A simple beginning of a pattern takes as many characters as it has.
  lemma {:induction false} SimpleFirst(x: string, rest: CString, text: string)
    requires Simple(x) && (rest != "" ==> rest[0] != '*')
    ensures '\0' !in x + rest
    ensures AtStart(Parse(x + rest), text) <==> At(x, text, 0) && AtStart(Parse(rest), text[|x|..])
    decreases |x|
  {
    if x == "" {
      assert x + rest == rest && text[0..] == text;
    } else {
      var re: CString := x + rest;
      assert re[1..] == x[1..] + rest && re[0] == x[0];
      assert Parse(re) == Parse(re[1..]).(items := [One(x[0])] + Parse(re[1..]).items);
      OneFirst(x[0], Parse(re[1..]), text);
      if text != "" {
        SimpleFirst(x[1..], rest, text[1..]);
        assert At(x, text, 0) ==> text[1..][|x| - 1..] == text[|x|..];
        AtTail(x, text);
      }
    }
  }

  lemma AtTail(x: string, text: string)
    requires x != "" && text != ""
    ensures At(x, text, 0) <==> (x[0] == '.' || x[0] == text[0]) && At(x[1..], text[1..], 0)
  {
    if At(x[1..], text[1..], 0) && (x[0] == '.' || x[0] == text[0]) {
      forall j | 0 <= j < |x|
        ensures x[j] == '.' || x[j] == text[j]
      {
        assert j > 0 ==> x[j] == x[1..][j - 1] && text[j] == text[1..][j - 1];
      }
    }
  }

  lemma AtShift(x: string, text: string, a: nat)
    requires a <= |text|
    ensures At(x, text[a..], 0) <==> At(x, text, a)
  {
    if At(x, text[a..], 0) {
      forall j | 0 <= j < |x|
        ensures x[j] == '.' || x[j] == text[a + j]
      {
        assert text[a..][j] == text[a + j];
      }
    }
  }

  lemma AtEnds(text: string)
    ensures AtStart(Parse(""), text) && (AtStart(Parse("$"), text) <==> text == "")
  {
    assert Spells([], text[..0]);
    assert Spells([], text[..|text|]) <==> text == "";
  }

  // A pattern of ordinary characters and dots is found exactly where the text agrees with it:
  // without dots, as a substring.
  lemma SimpleFound(re: CString, text: string)
    requires Simple(re)
    ensures Found(re, text) <==> exists a: nat :: At(re, text, a)
  {
    forall a: nat | a <= |text|
      ensures AtStart(Parse(re), text[a..]) <==> At(re, text, a)
    {
      SimpleFirst(re, "", text[a..]);
      assert re + "" == re;
      AtShift(re, text, a);
      if At(re, text, a) {
        AtEnds(text[a..][|re|..]);
      }
    }
    forall a: nat | a <= |text|
      ensures (exists b: nat | a <= b <= |text| :: Occurs(re, text, a, b)) <==> At(re, text, a)
    {
      OccursAtStart(re, text, a);
    }
    if Found(re, text) {
      var a: nat, b: nat :| a <= b <= |text| && Occurs(re, text, a, b);
      assert At(re, text, a);
    }
    if a: nat :| At(re, text, a) {
      var b: nat :| a <= b <= |text| && Occurs(re, text, a, b);
    }
  }

  lemma SubstringFound(re: CString, text: string)
    requires Simple(re) && '.' !in re
    ensures Found(re, text) <==> exists a, b :: 0 <= a <= b <= |text| && text[a..b] == re
  {
    SimpleFound(re, text);
    if a: nat :| At(re, text, a) {
      assert text[a..a + |re|] == re;
    }
    if a, b :| 0 <= a <= b <= |text| && text[a..b] == re {
      forall j | 0 <= j < |re|
        ensures re[j] == text[a + j]
      {
        assert text[a..b][j] == text[a + j];
      }
      assert At(re, text, a);
    }
  }

  // A dot in place of a character finds all that the character found, and a lone dot finds
  // every text but the empty one.
  lemma DotFound(re: CString, k: nat, text: string)
    requires Simple(re) && k < |re|
    ensures Found(re, text) ==> '\0' !in re[k := '.'] && Found(re[k := '.'], text)
    ensures Found(".", text) <==> text != ""
  {
    SimpleFound(re, text);
    SimpleFound(re[k := '.'], text);
    SimpleFound(".", text);
    if a: nat :| At(re, text, a) {
      assert At(re[k := '.'], text, a);
    }
    if text != "" {
      assert At(".", text, 0);
    }
  }

  // An anchored pattern is found exactly if it matches at the start.
  lemma AnchoredFound(re: CString, text: string)
    ensures Found("^" + re, text) <==> AtStart(Parse(re), text)
  {
    var anchored: CString := "^" + re;
    assert anchored[1..] == re && text[0..] == text;
    OccursAtStart(anchored, text, 0);
    if Found(anchored, text) {
      var a: nat, b: nat :| a <= b <= |text| && Occurs(anchored, text, a, b);
      assert a == 0;
    }
  }

  // ^ ties a pattern to the start of the text, and $ to its end.
  lemma AnchorsFound(x: CString, text: string)
    requires Simple(x)
    ensures Found("^" + x, text) <==> At(x, text, 0)
    ensures Found("^" + x + "$", text) <==> At(x, text, 0) && |text| == |x|
  {
    AnchoredFound(x, text);
    SimpleFirst(x, "", text);
    assert x + "" == x;
    AnchoredFound(x + "$", text);
    assert "^" + x + "$" == "^" + (x + "$");
    SimpleFirst(x, "$", text);
    if At(x, text, 0) {
      AtEnds(text[|x|..]);
    }
  }

  // Characters lo to hi - 1 of the text are all c, or c is a dot.
  predicate AllAre(c: char, text: string, lo: nat, hi: nat) {
    hi <= |text| && forall i | lo <= i < hi :: c == '.' || text[i] == c
  }

  // c* stands for any number of c, with a dot for any characters at all.
  lemma StarFound(x: CString, c: char, y: CString, text: string)
    requires Simple(x) && Simple(y) && c !in "*\0"
    ensures Found("^" + x + [c] + "*" + y + "$", text) <==>
            && |text| >= |x| + |y| && At(x, text, 0) && At(y, text, |text| - |y|)
            && AllAre(c, text, |x|, |text| - |y|)
  {
    var rest: CString := [c] + "*" + y + "$";
    assert "^" + x + [c] + "*" + y + "$" == "^" + (x + rest);
    AnchoredFound(x + rest, text);
    SimpleFirst(x, rest, text);
    if At(x, text, 0) {
      StarThen(c, y, text, |x|);
    }
  }

  lemma EndsWith(y: CString, text: string, n: nat)
    requires Simple(y) && n <= |text|
    ensures AtStart(Parse(y + "$"), text[n..]) <==> At(y, text, n) && n + |y| == |text|
  {
    SimpleFirst(y, "$", text[n..]);
    AtShift(y, text, n);
    if At(y, text, n) {
      AtEnds(text[n..][|y|..]);
    }
  }

  lemma HitsAre(c: char, text: string, k: nat, m: nat)
    requires k + m <= |text|
    ensures AllHit(c, text[k..][..m]) <==> AllAre(c, text, k, k + m)
  {
    var w := text[k..][..m];
    assert forall i | 0 <= i < m :: w[i] == text[k + i];
    if AllHit(c, w) {
      forall i | k <= i < k + m
        ensures c == '.' || text[i] == c
      {
        assert Hits(c, w[i - k]);
      }
    }
  }

  lemma StarParse(c: char, y: CString)
    requires c !in "*\0"
    ensures Parse([c] + "*" + y + "$") == Parse(y + "$").(items := [Star(c)] + Parse(y + "$").items)
  {
    var re: CString := [c] + "*" + y + "$";
    assert re[0] == c && re[1] == '*' && re[2..] == y + "$";
  }

  lemma StarThen(c: char, y: CString, text: string, k: nat)
    requires Simple(y) && c !in "*\0" && k <= |text|
    ensures AtStart(Parse([c] + "*" + y + "$"), text[k..]) <==>
            |text| >= k + |y| && At(y, text, |text| - |y|) && AllAre(c, text, k, |text| - |y|)
  {
    hide Parse, AtStart, AllHit, AllAre, At, Simple;
    var p, u := Parse(y + "$"), text[k..];
    StarParse(c, y);
    StarFirst(c, p, u);
    forall m | 0 <= m <= |u|
      ensures AtStart(p, u[m..]) <==> At(y, text, k + m) && k + m + |y| == |text|
      ensures AllHit(c, u[..m]) <==> AllAre(c, text, k, k + m)
    {
      assert u[m..] == text[k + m..];
      EndsWith(y, text, k + m);
      HitsAre(c, text, k, m);
    }
    if |text| >= k + |y| && At(y, text, |text| - |y|) && AllAre(c, text, k, |text| - |y|) {
      var m := |text| - |y| - k;
      assert AllHit(c, u[..m]) && AtStart(p, u[m..]);
    }
  }

  lemma AnythingFound(text: string)
    ensures Found("^.*$", text)
  {
    assert "^" + "" + ['.'] + "*" + "" + "$" == "^.*$";
    StarFound("", '.', "", text);
  }
}
