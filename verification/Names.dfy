/** Fresh names: bumping, declared names and their renamings. Names are strings of ASCII characters. */
module Names {
  import opened Wrappers
  import opened Graph

  type Declared = map<string, Option<string>>

  // ---------- names and their order ----------

  predicate LexLess(a: string, b: string)
    requires |a| == |b|
  {
    exists i :: 0 <= i < |a| && a[..i] == b[..i] && a[i] < b[i]
  }

  /** Shorter names come first; names of one length are ordered lexicographically. */
  predicate Before(a: string, b: string) {
    |a| < |b| || (|a| == |b| && LexLess(a, b))
  }

  lemma BeforeIsOrder(a: string, b: string, c: string)
    ensures !Before(a, a)
    ensures Before(a, b) && Before(b, c) ==> Before(a, c)
  {
    if |a| == |b| == |c| && LexLess(a, b) && LexLess(b, c) {
      var i :| 0 <= i < |a| && a[..i] == b[..i] && a[i] < b[i];
      var j :| 0 <= j < |b| && b[..j] == c[..j] && b[j] < c[j];
      var k := if i < j then i else j;
      assert a[..k] == a[..i][..k] && b[..k] == b[..i][..k] && b[..k] == b[..j][..k] && c[..k] == c[..j][..k];
      if i < j { assert b[i] == b[..j][i] && c[i] == c[..j][i]; }
      if j < i { assert a[j] == a[..i][j] && b[j] == b[..i][j]; }
      assert a[..k] == c[..k] && a[k] < c[k];
    }
  }

  function BumpString(s: string): string {
    if s == [] then "a"
    else
      var front, last := s[..|s| - 1], s[|s| - 1];
      if last == 'z' then BumpString(front) + "a"
      else if last == 'Z' then BumpString(front) + "A"
      else if last == '9' then BumpString(front) + "0"
      else if last as int < 127 then front + [(last as int + 1) as char]
      else s + "a"
  }

  function BumpInit(s: string): string {
    if s == [] then "a"
    else if s[0] == 'z' then "a" + s[1..]
    else if s[0] == 'Z' then "A" + s[1..]
    else if s[0] as int < 127 then [(s[0] as int + 1) as char] + s[1..]
    else "a" + s[1..]
  }

  /** Bumping leads to a later name, so it never comes back. */
  lemma {:induction false} BumpIncreases(s: string)
    ensures Before(s, BumpString(s))
  {
    if s != [] {
      var front, last, t := s[..|s| - 1], s[|s| - 1], BumpString(s);
      if last in ['z', 'Z', '9'] {
        BumpIncreases(front);
        var more := BumpString(front);
        if |more| == |front| {
          var i :| 0 <= i < |front| && front[..i] == more[..i] && front[i] < more[i];
          assert s[..i] == front[..i] && t[..i] == more[..i];
        }
      } else if last as int < 127 {
        assert s[..|s| - 1] == t[..|s| - 1];
      }
    }
  }

  /** The last characters of the three alphabets that bumping runs through. */
  predicate Full(s: string) {
    forall c :: c in s ==> c in ['z', 'Z', '9']
  }

  /** Each of them set back to the first of its alphabet. */
  function SetBack(s: string): string {
    seq(|s|, i requires 0 <= i < |s| => if s[i] == 'z' then 'a' else if s[i] == 'Z' then 'A' else '0')
  }

  lemma BumpCarries(front: string, last: char)
    requires Full([last])
    ensures BumpString(front + [last]) == BumpString(front) + SetBack([last])
  {
    assert last in [last] && (front + [last])[..|front|] == front;
  }

  lemma SetBackSnoc(moved: string, front: string, last: char)
    ensures moved + SetBack(front) + SetBack([last]) == moved + SetBack(front + [last])
  {
  }

  /** The front with the character behind it moved on. */
  function MovedOn(p: string, c: char): string {
    if c as int < 127 then p + [(c as int + 1) as char] else p + [c] + "a"
  }

  lemma BumpLast(p: string, c: char)
    requires !Full([c])
    ensures BumpString(p + [c]) == MovedOn(p, c)
  {
    assert (p + [c])[..|p|] == p && (p + [c])[|p|] == c;
  }

  /**
   Bumping moves on the last character that is not the end of an alphabet and sets back those behind it; where there is no
   such character, or it is the last of all, a letter is added.
   */
  lemma {:induction false} BumpMovesOn(p: string, c: char, full: string)
    requires Full(full) && !Full([c])
    ensures BumpString(p + [c] + full) == MovedOn(p, c) + SetBack(full)
    ensures BumpString(full) == "a" + SetBack(full)
  {
    if full == [] {
      BumpLast(p, c);
      assert p + [c] + full == p + [c] && MovedOn(p, c) + [] == MovedOn(p, c);
    } else {
      var n := |full| - 1;
      var front, last := full[..n], full[n];
      assert last in full && forall d :: d in front ==> d in full;
      BumpMovesOn(p, c, front);
      BumpCarries(p + [c] + front, last);
      BumpCarries(front, last);
      SetBackSnoc(MovedOn(p, c), front, last);
      SetBackSnoc("a", front, last);
      assert full == front + [last] && p + [c] + full == p + [c] + front + [last];
    }
  }

  /** The first character is moved on by itself, and only set back behind the last letters. */
  lemma BumpInitMovesOn(c: char, rest: string)
    requires c as int < 127
    ensures !Full([c]) ==> BumpInit([c] + rest) == BumpString([c]) + rest
    ensures c in ['z', 'Z'] ==> BumpInit([c] + rest) == SetBack([c]) + rest
    ensures c == '9' ==> BumpInit([c] + rest) == ":" + rest
  {
    assert ([c] + rest)[1..] == rest && [c][..0] == [];
    assert c in [c];
  }

  predicate Lower(s: string) {
    forall c :: c in s ==> 'a' <= c <= 'z'
  }

  lemma LexLast(a: string, c: char, b: string, d: char)
    requires |a| == |b|
    ensures LexLess(a + [c], b + [d]) <==> LexLess(a, b) || (a == b && c < d)
  {
    if LexLess(a, b) || (a == b && c < d) { LexExtends(a, c, b, d); }
    if LexLess(a + [c], b + [d]) { LexShortens(a, c, b, d); }
  }

  lemma LexExtends(a: string, c: char, b: string, d: char)
    requires |a| == |b| && (LexLess(a, b) || (a == b && c < d))
    ensures LexLess(a + [c], b + [d])
  {
    var s, t := a + [c], b + [d];
    var i := |a|;
    if LexLess(a, b) { i :| 0 <= i < |a| && a[..i] == b[..i] && a[i] < b[i]; }
    assert s[..i] == a[..i] && t[..i] == b[..i];
    assert s[i] < t[i];
  }

  lemma LexShortens(a: string, c: char, b: string, d: char)
    requires |a| == |b| && LexLess(a + [c], b + [d])
    ensures LexLess(a, b) || (a == b && c < d)
  {
    var s, t := a + [c], b + [d];
    var i :| 0 <= i < |s| && s[..i] == t[..i] && s[i] < t[i];
    assert a[..i] == s[..i] && b[..i] == t[..i];
    if i == |a| {
      assert a == a[..i] && b == b[..i];
    } else {
      assert a[i] < b[i];
    }
  }

  lemma LowerParts(p: string, c: char)
    ensures Lower(p + [c]) <==> Lower(p) && 'a' <= c <= 'z'
  {
    assert c in p + [c];
    assert forall d :: d in p ==> d in p + [c];
  }

  lemma {:induction false} BumpLower(s: string)
    requires Lower(s)
    ensures Lower(BumpString(s))
  {
    if s != [] {
      var front, last := s[..|s| - 1], s[|s| - 1];
      assert s == front + [last];
      LowerParts(front, last);
      if last == 'z' {
        BumpLower(front);
        LowerParts(BumpString(front), 'a');
      } else {
        LowerParts(front, (last as int + 1) as char);
      }
    }
  }

  /** Among names of lower-case letters, bumping leads to the very next one. */
  lemma BumpIsNext(s: string)
    requires Lower(s)
    ensures Lower(BumpString(s)) && Before(s, BumpString(s))
    ensures forall t :: Lower(t) && Before(s, t) ==> t == BumpString(s) || Before(BumpString(s), t)
  {
    BumpLower(s);
    BumpIncreases(s);
    forall t | Lower(t) && Before(s, t) ensures t == BumpString(s) || Before(BumpString(s), t) {
      BumpSkipsNone(s, t);
    }
  }

  /** After the last letter the front moves on and the first letter follows. */
  lemma AfterLastLetter(more: string, p: string, d: char)
    requires (p == more || Before(more, p)) && 'a' <= d
    ensures p + [d] == more + ['a'] || Before(more + ['a'], p + [d])
  {
    if |more| == |p| { LexLast(more, 'a', p, d); }
  }

  lemma NextLetter(front: string, last: char, p: string, d: char)
    requires Before(front + [last], p + [d]) && last < 'z'
    ensures var next := (last as int + 1) as char; p + [d] == front + [next] || Before(front + [next], p + [d])
  {
    if |p| == |front| {
      LexLast(front, last, p, d);
      LexLast(front, (last as int + 1) as char, p, d);
    }
  }

  lemma FrontBefore(front: string, last: char, p: string, d: char)
    requires Before(front + [last], p + [d]) && d <= last
    ensures Before(front, p)
  {
    if |p| == |front| { LexLast(front, last, p, d); }
  }

  lemma {:induction false} BumpSkipsNone(s: string, t: string)
    requires Lower(s) && Lower(t) && Before(s, t)
    ensures t == BumpString(s) || Before(BumpString(s), t)
    decreases |s|
  {
    var p, d := t[..|t| - 1], t[|t| - 1];
    assert t == p + [d];
    LowerParts(p, d);
    if s == [] {
      if |t| == 1 { LexLast([], 'a', p, d); }
    } else {
      var front, last := s[..|s| - 1], s[|s| - 1];
      assert s == front + [last];
      LowerParts(front, last);
      if last == 'z' {
        FrontBefore(front, last, p, d);
        BumpSkipsNone(front, p);
        AfterLastLetter(BumpString(front), p, d);
      } else {
        NextLetter(front, last, p, d);
      }
    }
  }

  // ---------- trailing underscores ----------

  predicate EndsBare(s: string) {
    s != [] && s[|s| - 1] == '_'
  }

  function Underscores(n: nat): string {
    seq(n, _ => '_')
  }

  function Clean(s: string): (c: string)
    ensures !EndsBare(c) && |c| <= |s|
  {
    if EndsBare(s) then Clean(s[..|s| - 1]) else s
  }

  lemma {:induction false} CleanSplits(s: string)
    ensures s == Clean(s) + Underscores(|s| - |Clean(s)|)
  {
    if EndsBare(s) {
      CleanSplits(s[..|s| - 1]);
      assert s == s[..|s| - 1] + "_";
    }
  }

  /** The clean name is the only one of which the name arises by appending underscores. */
  lemma {:induction false} CleanUnique(c: string, n: nat)
    requires !EndsBare(c)
    ensures Clean(c + Underscores(n)) == c
  {
    if n > 0 {
      CleanUnique(c, n - 1);
      assert (c + Underscores(n))[..|c| + n - 1] == c + Underscores(n - 1);
    } else {
      assert c + Underscores(0) == c;
    }
  }

  lemma CleanOfSuffixed(s: string, n: nat)
    ensures Clean(s + Underscores(n)) == Clean(s)
  {
    var k := |s| - |Clean(s)|;
    CleanSplits(s);
    CleanUnique(Clean(s), k + n);
    assert s + Underscores(n) == Clean(s) + Underscores(k + n);
  }

  method CleanName(s: string) returns (r: string)
    ensures r == Clean(s)
  {
    r := s;
    while r != [] && r[|r| - 1] == '_'
      invariant Clean(r) == Clean(s)
      decreases |r|
    {
      r := r[..|r| - 1];
    }
  }

  method CleanIndex(s: string) returns (base: string, n: nat)
    ensures base == Clean(s) && s == base + Underscores(n)
  {
    n := 0;
    var end := |s|;
    assert s[..end] == s;
    while end > 0 && s[end - 1] == '_'
      invariant 0 <= end <= |s| && end + n == |s| && Clean(s[..end]) == Clean(s)
      decreases end
    {
      assert s[..end][..end - 1] == s[..end - 1];
      n := n + 1;
      end := end - 1;
    }
    base := s[..end];
    CleanSplits(s);
  }

  // ---------- the search for a free name ----------

  predicate Taken(names: set<string>, x: string) {
    Clean(x) in names
  }

  function Above(names: set<string>, x: string): set<string> {
    set m | m in names && !Before(m, x)
  }

  /** A taken name is passed: it is one less to meet, or it ended in an underscore and the next one does not. */
  lemma SearchAdvances(names: set<string>, x: string)
    ensures |Above(names, BumpString(x))| <= |Above(names, x)|
    ensures Taken(names, x) && !EndsBare(x) ==> |Above(names, BumpString(x))| < |Above(names, x)|
    ensures EndsBare(x) ==> !EndsBare(BumpString(x))
  {
    BumpIncreases(x);
    var now, next := Above(names, x), Above(names, BumpString(x));
    forall m | m in next ensures m in now {
      BeforeIsOrder(m, x, BumpString(x));
    }
    BeforeIsOrder(x, x, x);
    assert now == next + (now - next);
    assert Taken(names, x) && !EndsBare(x) ==> x in now - next;
  }

  /** The first name not taken, from `x` on. */
  function FirstFree(names: set<string>, x: string): (y: string)
    ensures !Taken(names, y) && (y == x || Before(x, y))
    decreases |Above(names, x)|, if EndsBare(x) then 1 else 0
  {
    SearchAdvances(names, x);
    BumpIncreases(x);
    if Taken(names, x) then
      var y := FirstFree(names, BumpString(x));
      BeforeIsOrder(x, BumpString(x), y);
      y
    else x
  }

  function Bumped(x: string, k: nat): string
    decreases k
  {
    if k == 0 then x else Bumped(BumpString(x), k - 1)
  }

  /** It is the first: everything bumped over on the way was taken. */
  lemma {:induction false} FirstFreeIsFirst(names: set<string>, x: string) returns (k: nat)
    ensures FirstFree(names, x) == Bumped(x, k)
    ensures forall j :: 0 <= j < k ==> Taken(names, Bumped(x, j))
    decreases |Above(names, x)|, if EndsBare(x) then 1 else 0
  {
    k := 0;
    if Taken(names, x) {
      SearchAdvances(names, x);
      var rest := FirstFreeIsFirst(names, BumpString(x));
      k := rest + 1;
    }
  }

  /** The first `n` names not taken, from `x` on. */
  function FreeNames(names: set<string>, x: string, n: nat): (r: seq<string>)
    ensures |r| == n
    decreases n
  {
    if n == 0 then []
    else
      var y := FirstFree(names, x);
      [y] + FreeNames(names, BumpString(y), n - 1)
  }

  /** Names that are not taken, from `x` on. */
  predicate FreeFrom(names: set<string>, x: string, r: seq<string>) {
    forall i :: 0 <= i < |r| ==> !Taken(names, r[i]) && (r[i] == x || Before(x, r[i]))
  }

  predicate Ascending(r: seq<string>) {
    forall i, j :: 0 <= i < j < |r| ==> Before(r[i], r[j])
  }

  predicate Distinct(r: seq<string>) {
    forall i, j :: 0 <= i < j < |r| ==> r[i] != r[j]
  }

  /** Invented names are not taken and come in ascending order, so they are pairwise distinct. */
  lemma {:induction false} FreeNamesDistinct(names: set<string>, x: string, n: nat)
    ensures FreeFrom(names, x, FreeNames(names, x, n))
    ensures Ascending(FreeNames(names, x, n)) && Distinct(FreeNames(names, x, n))
    decreases n
  {
    if n > 0 {
      var y := FirstFree(names, x);
      var next := BumpString(y);
      var rest := FreeNames(names, next, n - 1);
      FreeNamesDistinct(names, next, n - 1);
      BumpIncreases(y);
      forall i | 0 <= i < |rest| ensures Before(y, rest[i]) && Before(x, rest[i]) && y != rest[i] {
        FreshIsLater(x, y, next, rest[i]);
      }
      assert FreeNames(names, x, n) == [y] + rest;
    }
  }

  lemma FreshIsLater(x: string, y: string, next: string, z: string)
    requires (y == x || Before(x, y)) && Before(y, next) && (z == next || Before(next, z))
    ensures Before(y, z) && Before(x, z) && y != z
  {
    BeforeIsOrder(y, next, z);
    BeforeIsOrder(x, y, z);
  }

  lemma FreeNamesStep(names: set<string>, x: string, n: nat)
    requires n > 0
    ensures FreeNames(names, x, n) ==
            if Taken(names, x) then FreeNames(names, BumpString(x), n) else [x] + FreeNames(names, BumpString(x), n - 1)
  {
  }

  /** After `found`, the names to be found are the free ones from `x` on. */
  ghost predicate Finding(names: set<string>, wanted: seq<string>, found: seq<string>, x: string) {
    |found| <= |wanted| && Distinct(wanted) && wanted == found + FreeNames(names, x, |wanted| - |found|)
  }

  lemma NotAmong(found: seq<string>, x: string, rest: seq<string>)
    requires Distinct(found + ([x] + rest))
    ensures x !in found && found + ([x] + rest) == found + [x] + rest
  {
    var all := found + ([x] + rest);
    assert all[|found|] == x;
    forall i | 0 <= i < |found| ensures found[i] != x {
      assert found[i] == all[i];
    }
  }

  /** One round of inventing: a taken name is passed over. */
  lemma InventSkip(names: set<string>, wanted: seq<string>, found: seq<string>, x: string)
    requires Finding(names, wanted, found, x) && |found| < |wanted| && Taken(names, x)
    ensures Finding(names, wanted, found, BumpString(x))
  {
    FreeNamesStep(names, x, |wanted| - |found|);
  }

  /** A free name is the next one wanted, and it is not among those found. */
  lemma InventTake(names: set<string>, wanted: seq<string>, found: seq<string>, x: string)
    requires Finding(names, wanted, found, x) && |found| < |wanted| && !Taken(names, x)
    ensures x !in found && Finding(names, wanted, found + [x], BumpString(x))
  {
    var n := |wanted| - |found|;
    var rest := FreeNames(names, BumpString(x), n - 1);
    assert FreeNames(names, x, n) == [x] + rest by { FreeNamesStep(names, x, n); }
    NotAmong(found, x, rest);
  }

  // ---------- variants ----------

  function Renamed(d: Declared, old_: string, new_: string): Declared {
    if Clean(old_) == Clean(new_) then d else d[Clean(old_) := Some(Clean(new_))]
  }

  /** The name chosen for a base name, without the underscores. */
  function Chosen(names: set<string>, base: string): (x: string)
    ensures !EndsBare(base) ==> !Taken(names, x)
  {
    if base in names then FirstFree(names, BumpInit(base)) else base
  }

  function VariantName(names: set<string>, name: string): string {
    var base := Clean(name);
    Chosen(names, base) + Underscores(|name| - |base|)
  }

  /** The context after a variant of the base name was chosen. */
  function Choosing(d: Declared, base: string): (after: Declared)
    ensures d.Keys <= after.Keys
  {
    var x := Chosen(d.Keys, base);
    (if base in d then Renamed(d, BumpInit(base), x) else d)[x := None]
  }

  /**
   A free base name is taken as it is. For one that is taken, the bumped start of the search is renamed to what was found, if
   it is not that, and nothing else changes but that this is declared.
   */
  lemma ChoosingRecords(d: Declared, base: string)
    requires !EndsBare(base)
    ensures base !in d ==> Choosing(d, base) == d[base := None]
    ensures base in d ==>
              var start, x, after := Clean(BumpInit(base)), Chosen(d.Keys, base), Choosing(d, base);
              && x in after && after[x] == None
              && (start in d && start != Clean(x) && start != x ==> after[start] == Some(Clean(x)))
              && (BumpInit(base) !in d && !EndsBare(BumpInit(base)) ==> x == BumpInit(base))
              && after.Keys == d.Keys + {x} + (if start == Clean(x) then {} else {start})
              && forall k :: k in d && k != x && k != start ==> after[k] == d[k]
  {
  }

  function VariantContext(d: Declared, name: string): (after: Declared)
    ensures d.Keys <= after.Keys
  {
    Choosing(d, Clean(name))
  }

  function VariantsNames(d: Declared, names: seq<string>): (r: seq<string>)
    ensures |r| == |names|
    decreases |names|
  {
    if names == [] then []
    else [VariantName(d.Keys, names[0])] + VariantsNames(VariantContext(d, names[0]), names[1..])
  }

  function VariantsContext(d: Declared, names: seq<string>): Declared
    decreases |names|
  {
    if names == [] then d else VariantsContext(VariantContext(d, names[0]), names[1..])
  }

  /** What is found, and what is then still to be done from a context on. */
  ghost predicate Underway(d0: Declared, names: seq<string>, found: seq<string>, d: Declared, i: nat) {
    && i <= |names|
    && VariantsNames(d0, names) == found + VariantsNames(d, names[i..])
    && VariantsContext(d0, names) == VariantsContext(d, names[i..])
  }

  lemma VariantsStart(d: Declared, names: seq<string>)
    ensures Underway(d, names, [], d, 0)
  {
    assert names[0..] == names && [] + VariantsNames(d, names) == VariantsNames(d, names);
  }

  lemma VariantsStep(d0: Declared, names: seq<string>, found: seq<string>, d: Declared, i: nat)
    requires Underway(d0, names, found, d, i) && i < |names|
    ensures Underway(d0, names, found + [VariantName(d.Keys, names[i])], VariantContext(d, names[i]), i + 1)
  {
    var v, rest := VariantName(d.Keys, names[i]), VariantsNames(VariantContext(d, names[i]), names[i + 1..]);
    assert names[i..][1..] == names[i + 1..];
    assert found + ([v] + rest) == found + [v] + rest;
  }

  lemma VariantsEnd(d0: Declared, names: seq<string>, found: seq<string>, d: Declared)
    requires Underway(d0, names, found, d, |names|)
    ensures found == VariantsNames(d0, names) && d == VariantsContext(d0, names)
  {
    assert names[|names|..] == [] && found + [] == found;
  }

  /** The last character is one from which bumping leads to an underscore. */
  predicate Risky(x: string) {
    x != [] && '[' <= x[|x| - 1] <= '^'
  }

  /** The search meets an underscore: all of the way there is taken, and the name left of it is not. */
  predicate Trapped(names: set<string>, x: string) {
    && Risky(x)
    && (forall c :: x[|x| - 1] <= c <= '^' ==> x[..|x| - 1] + [c] in names)
    && Clean(x[..|x| - 1]) !in names
  }

  lemma {:induction false} SafeSearch(names: set<string>, x: string)
    requires !EndsBare(x) && !Risky(x)
    ensures !EndsBare(FirstFree(names, x))
    decreases |Above(names, x)|, if EndsBare(x) then 1 else 0
  {
    SearchAdvances(names, x);
    if Taken(names, x) {
      var last := if x == [] then 'a' else x[|x| - 1];
      assert BumpString(x)[|BumpString(x)| - 1] != '_';
      SafeSearch(names, BumpString(x));
    }
  }

  /** One step towards the underscore. */
  lemma TrappedStep(names: set<string>, front: string, c: char)
    requires '[' <= c <= '^' && front + [c] in names
    ensures c == '^' ==> (Trapped(names, front + [c]) <==> Clean(front) !in names)
    ensures c < '^' ==> (Trapped(names, front + [c]) <==> Trapped(names, front + [(c as int + 1) as char]))
  {
    var x, next := front + [c], front + [(c as int + 1) as char];
    assert x[..|x| - 1] == front && next[..|next| - 1] == front;
  }

  /** The last step, over the underscore itself. */
  lemma UnderscoreSearch(names: set<string>, front: string)
    ensures EndsBare(FirstFree(names, front + "_")) <==> Clean(front) !in names
    ensures Clean(front) !in names ==> FirstFree(names, front + "_") == front + "_"
  {
    var x := front + "_";
    assert x[..|x| - 1] == front;
    assert Clean(x) == Clean(front);
    if Taken(names, x) {
      SearchAdvances(names, x);
      SafeSearch(names, BumpString(x));
    }
  }

  lemma {:induction false} RiskySearch(names: set<string>, x: string)
    requires Risky(x)
    ensures EndsBare(FirstFree(names, x)) <==> Trapped(names, x)
    ensures Trapped(names, x) ==> FirstFree(names, x) == x[..|x| - 1] + "_"
    decreases |Above(names, x)|, if EndsBare(x) then 1 else 0
  {
    var front, last, next := x[..|x| - 1], x[|x| - 1], BumpString(x);
    assert x == front + [last];
    assert Clean(x) == x;
    if x in names {
      SearchAdvances(names, x);
      TrappedStep(names, front, last);
      if last == '^' {
        assert next == front + "_";
        UnderscoreSearch(names, front);
      } else {
        assert next[..|next| - 1] == front;
        RiskySearch(names, next);
      }
    }
  }

  lemma BumpInitEnds(base: string)
    requires !EndsBare(base)
    ensures EndsBare(BumpInit(base)) ==> BumpInit(base) == "_"
  {
  }

  /** A chosen name ends in an underscore, and so is not recorded as taken, exactly if the search was trapped. */
  lemma ChosenIsClean(names: set<string>, base: string)
    requires "" in names && !EndsBare(base)
    ensures EndsBare(Chosen(names, base)) <==> base in names && Trapped(names, BumpInit(base))
  {
    var x := BumpInit(base);
    BumpInitEnds(base);
    if base in names {
      if Risky(x) {
        RiskySearch(names, x);
      } else if EndsBare(x) {
        assert Clean("_") == Clean("_"[..0]) == "";
        SafeSearch(names, BumpString(x));
      } else {
        SafeSearch(names, x);
      }
    }
  }

  lemma VariantIsNew(names: set<string>, name: string)
    ensures Clean(VariantName(names, name)) !in names
    ensures Clean(VariantName(names, name)) == Clean(Chosen(names, Clean(name)))
  {
    CleanOfSuffixed(Chosen(names, Clean(name)), |name| - |Clean(name)|);
  }

  /** A trapped search stays trapped when its start and its result are declared. */
  lemma StaysTrapped(names: set<string>, x0: string)
    requires Trapped(names, x0)
    ensures Trapped(names + {x0, FirstFree(names, x0)}, x0)
  {
    RiskySearch(names, x0);
    var front, x := x0[..|x0| - 1], FirstFree(names, x0);
    assert x == front + "_";
    assert Clean(front) != x0 && Clean(front) != x;
  }

  lemma TrappedTwice(d: Declared, base: string)
    requires base in d && !EndsBare(base) && Trapped(d.Keys, BumpInit(base))
    ensures Chosen(Choosing(d, base).Keys, base) == Chosen(d.Keys, base)
  {
    var x0, after := BumpInit(base), Choosing(d, base);
    var x := FirstFree(d.Keys, x0);
    RiskySearch(d.Keys, x0);
    StaysTrapped(d.Keys, x0);
    assert Clean(x0) == x0;
    assert Clean(x) != x0;
    assert after.Keys == d.Keys + {x0, x};
    RiskySearch(after.Keys, x0);
  }

  lemma ChosenTwice(d: Declared, base: string)
    requires "" in d && !EndsBare(base)
    ensures Chosen(Choosing(d, base).Keys, base) != Chosen(d.Keys, base) <==>
            !(base in d && Trapped(d.Keys, BumpInit(base)))
  {
    ChosenIsClean(d.Keys, base);
    if base in d && Trapped(d.Keys, BumpInit(base)) {
      TrappedTwice(d, base);
    } else {
      var x := Chosen(d.Keys, base);
      assert x in Choosing(d, base) && Clean(x) == x;
    }
  }

  /** Asking for the same name twice gives two names exactly if the search is not trapped. */
  lemma AskedTwice(d: Declared, name: string)
    requires "" in d
    ensures VariantName(d.Keys, name) != VariantName(VariantContext(d, name).Keys, name) <==>
            !TrappedAt(d, name)
  {
    var base := Clean(name);
    ChosenTwice(d, base);
    SuffixCancels(Chosen(d.Keys, base), Chosen(Choosing(d, base).Keys, base), Underscores(|name| - |base|));
  }

  lemma SuffixCancels(x: string, y: string, s: string)
    ensures x + s == y + s ==> x == y
  {
    if x + s == y + s {
      assert |x| == |y|;
      assert x == (x + s)[..|x|] && y == (y + s)[..|x|];
    }
  }

  lemma {:induction false} VariantsAreNew(d: Declared, names: seq<string>)
    ensures forall r :: r in VariantsNames(d, names) ==> Clean(r) !in d
    decreases |names|
  {
    if names != [] {
      VariantIsNew(d.Keys, names[0]);
      VariantsAreNew(VariantContext(d, names[0]), names[1..]);
    }
  }

  predicate TrappedAt(d: Declared, name: string) {
    Clean(name) in d && Trapped(d.Keys, BumpInit(Clean(name)))
  }

  /** A name found by a trapped search is not chosen again later in the list. */
  predicate TrapsUnused(d: Declared, names: seq<string>)
    decreases |names|
  {
    names == [] ||
    (var after := VariantContext(d, names[0]);
     && (TrappedAt(d, names[0]) ==> VariantName(d.Keys, names[0]) !in VariantsNames(after, names[1..]))
     && TrapsUnused(after, names[1..]))
  }

  /** Variants are pairwise distinct exactly if no name found by a trapped search is chosen again later. */
  lemma {:induction false} VariantsDistinct(d: Declared, names: seq<string>)
    requires "" in d
    ensures Distinct(VariantsNames(d, names)) <==> TrapsUnused(d, names)
    decreases |names|
  {
    if names != [] {
      var after := VariantContext(d, names[0]);
      var first, rest := VariantName(d.Keys, names[0]), VariantsNames(after, names[1..]);
      VariantsDistinct(after, names[1..]);
      assert VariantsNames(d, names) == [first] + rest;
      DistinctCons(first, rest);
      if !TrappedAt(d, names[0]) {
        VariantsAreNew(after, names[1..]);
        VariantIsNew(d.Keys, names[0]);
        ChosenIsClean(d.Keys, Clean(names[0]));
        assert Clean(first) in after;
      }
    }
  }

  lemma DistinctCons(first: string, rest: seq<string>)
    ensures Distinct([first] + rest) <==> first !in rest && Distinct(rest)
  {
    var all := [first] + rest;
    if Distinct(all) {
      forall j | 0 <= j < |rest| ensures rest[j] != first { assert all[j + 1] != all[0]; }
      forall i, j | 0 <= i < j < |rest| ensures rest[i] != rest[j] { assert all[i + 1] != all[j + 1]; }
    }
  }

  /** No search on the way to the variants is trapped. */
  predicate NeverTrapped(d: Declared, names: seq<string>)
    decreases |names|
  {
    names == [] || (!TrappedAt(d, names[0]) && NeverTrapped(VariantContext(d, names[0]), names[1..]))
  }

  lemma {:induction false} NeverTrappedDistinct(d: Declared, names: seq<string>)
    requires "" in d && NeverTrapped(d, names)
    ensures Distinct(VariantsNames(d, names))
    decreases |names|
  {
    NeverTrappedUnused(d, names);
    VariantsDistinct(d, names);
  }

  lemma {:induction false} NeverTrappedUnused(d: Declared, names: seq<string>)
    requires NeverTrapped(d, names)
    ensures TrapsUnused(d, names)
    decreases |names|
  {
    if names != [] { NeverTrappedUnused(VariantContext(d, names[0]), names[1..]); }
  }

  /** No search is trapped for names from which bumping does not lead to an underscore, alphanumeric ones above all. */
  lemma {:induction false} SafeNamesNeverTrapped(d: Declared, names: seq<string>)
    requires forall n :: n in names ==> !Risky(BumpInit(Clean(n)))
    ensures NeverTrapped(d, names)
    decreases |names|
  {
    if names != [] {
      SafeNamesNeverTrapped(VariantContext(d, names[0]), names[1..]);
    }
  }

  predicate IsAlnum(c: char) {
    'a' <= c <= 'z' || 'A' <= c <= 'Z' || '0' <= c <= '9'
  }

  /** Alphanumeric names are among them. */
  lemma AlphanumericIsSafe(s: string)
    requires forall c :: c in s ==> IsAlnum(c)
    ensures !Risky(BumpInit(s))
  {
    if s != [] {
      assert IsAlnum(s[0]) && IsAlnum(s[|s| - 1]);
    }
  }

  /** Two variants of one name can be the same. */
  lemma VariantsCollide()
    ensures var d: Declared := map["" := None, "'" := None, "`^" := None, "a^" := None];
            VariantsNames(d, ["`^", "`^"]) == ["a_", "a_"]
  {
    var d: Declared := map["" := None, "'" := None, "`^" := None, "a^" := None];
    assert Clean("`^") == "`^" && BumpInit("`^") == "a^";
    assert "a^"[..1] == "a" && Clean("a") == "a";
    assert Trapped(d.Keys, "a^");
    AskedTwice(d, "`^");
    RiskySearch(d.Keys, "a^");
    assert "a" + "_" == "a_";
    assert Underscores(0) == [] && "a_" + [] == "a_";
    assert VariantName(d.Keys, "`^") == "a_";
    var after := VariantContext(d, "`^");
    assert ["`^", "`^"][1..] == ["`^"] && ["`^"][1..] == [];
    assert VariantsNames(after, ["`^"]) == [VariantName(after.Keys, "`^")];
  }

  // ---------- renamings ----------

  /** The graph of recorded renamings. */
  function Renamings(d: Declared): map<string, set<string>> {
    map s | s in d :: match d[s] case None => {} case Some(t) => {t}
  }

  /** Redirecting a name to one without a renaming of its own makes no cycle. */
  lemma RenamingKeepsRank(d: Declared, old_: string, new_: string)
    requires HasRank(Renamings(d)) && Clean(old_) != Clean(new_)
    requires Clean(new_) !in d || d[Clean(new_)] == None
    ensures HasRank(Renamings(Renamed(d, old_, new_)))
  {
    var g := Renamings(d);
    RedirectToSinks(g, Clean(old_), {Clean(new_)});
    assert Renamings(Renamed(d, old_, new_)) == g[Clean(old_) := {Clean(new_)}];
  }

  lemma EndingKeepsRank(d: Declared, name: string)
    requires HasRank(Renamings(d))
    ensures HasRank(Renamings(d[name := None]))
  {
    RedirectToSinks(Renamings(d), name, {});
    assert Renamings(d[name := None]) == Renamings(d)[name := {}];
  }

  /** Renamings lead to clean names. */
  predicate CleanTargets(d: Declared) {
    forall s :: s in d && d[s].Some? ==> Clean(d[s].value) == d[s].value
  }

  /** The two reserved names are declared, renamings lead to clean names, and they have no cycle. */
  ghost predicate Legal(d: Declared) {
    "" in d && "'" in d && CleanTargets(d) && HasRank(Renamings(d))
  }

  /** Bumping leads to an underscore, and what stands before it is not one of the reserved names. */
  predicate CanCollide(name: string) {
    var x := BumpInit(Clean(name));
    Risky(x) && Clean(x[..|x| - 1]) !in {"", "'"}
  }

  lemma AsksTwice(d: Declared, name: string)
    requires "" in d
    ensures Distinct(VariantsNames(d, [name, name])) <==> !TrappedAt(d, name)
  {
    var after := VariantContext(d, name);
    var first, second := VariantName(d.Keys, name), VariantName(after.Keys, name);
    AskedTwice(d, name);
    assert [name, name][1..] == [name] && [name][1..] == [];
    assert VariantsNames(after, [name]) == [second];
    assert VariantsNames(d, [name, name]) == [first] + [second];
    DistinctCons(first, [second]);
  }

  function CrowdedNames(base: string, front: string): set<string> {
    {"", "'", base, front + ['['], front + ['\\'], front + [']'], front + ['^']}
  }

  /** A context in which everything on the way to the underscore is taken. */
  function Crowded(base: string, front: string): Declared {
    map s | s in CrowdedNames(base, front) :: None
  }

  lemma CrowdedLegal(base: string, front: string)
    ensures Legal(Crowded(base, front))
  {
    var d := Crowded(base, front);
    var rank: string -> nat := (s: string) => 0;
    assert "" in CrowdedNames(base, front) && "'" in CrowdedNames(base, front);
    assert forall s :: s in d ==> d[s] == None;
    assert Ranked(Renamings(d), rank);
  }

  lemma RiskyTaken(base: string, front: string)
    ensures forall c: char :: '[' <= c <= '^' ==> front + [c] in CrowdedNames(base, front)
  {
    forall c: char | '[' <= c <= '^' ensures front + [c] in CrowdedNames(base, front) {
      assert c == '[' || c == '\\' || c == ']' || c == '^';
    }
  }

  lemma FrontIsFree(base: string, front: string)
    requires Clean(front) !in {"", "'"} && |front| < |base|
    ensures Clean(front) !in CrowdedNames(base, front)
  {
    var c := Clean(front);
    assert |c| <= |front|;
    assert |front + ['[']| == |front + ['\\']| == |front + [']']| == |front + ['^']| == |front| + 1;
  }

  lemma TrapIn(names: set<string>, front: string, last: char)
    requires '[' <= last <= '^' && Clean(front) !in names
    requires forall c: char :: '[' <= c <= '^' ==> front + [c] in names
    ensures Trapped(names, front + [last])
  {
    var x := front + [last];
    assert x[..|x| - 1] == front;
  }

  lemma CrowdedTraps(name: string)
    requires CanCollide(name)
    ensures var base := Clean(name); var x := BumpInit(base); TrappedAt(Crowded(base, x[..|x| - 1]), name)
  {
    var base := Clean(name);
    var x := BumpInit(base);
    var front, last := x[..|x| - 1], x[|x| - 1];
    var names := CrowdedNames(base, front);
    RiskyTaken(base, front);
    FrontIsFree(base, front);
    TrapIn(names, front, last);
    assert x == front + [last];
    assert Crowded(base, front).Keys == names;
  }

  /** In this context two requests for the name give the same name. */
  ghost predicate Collides(d: Declared, name: string) {
    Legal(d) && !Distinct(VariantsNames(d, [name, name]))
  }

  lemma CollisionIsSeen(d: Declared, name: string)
    requires Collides(d, name)
    ensures CanCollide(name)
  {
    AsksTwice(d, name);
  }

  lemma TrappedCollides(d: Declared, name: string)
    requires Legal(d) && TrappedAt(d, name)
    ensures Collides(d, name)
  {
    AsksTwice(d, name);
  }

  lemma CrowdedCollides(name: string) returns (d: Declared)
    requires CanCollide(name)
    ensures Collides(d, name)
  {
    var x := BumpInit(Clean(name));
    d := Crowded(Clean(name), x[..|x| - 1]);
    CrowdedLegal(Clean(name), x[..|x| - 1]);
    CrowdedTraps(name);
    TrappedCollides(d, name);
  }

  /** Some context makes two requests for a name give the same name exactly if this can be seen from the name. */
  lemma CollisionExact(name: string)
    ensures CanCollide(name) <==> exists d :: Collides(d, name)
  {
    if CanCollide(name) { var d := CrowdedCollides(name); }
    if d :| Collides(d, name) { CollisionIsSeen(d, name); }
  }

  /** The end of the chain of renamings that starts at the clean name. */
  ghost predicate IsLatest(d: Declared, name: string, end: string) {
    Reaches(Renamings(d), Clean(name), end) && (end in d ==> d[end] == None)
  }

  /** Each step of a chain is a recorded renaming. */
  lemma RenamedTo(d: Declared, p: seq<string>, i: nat)
    requires Path(Renamings(d), p) && i + 1 < |p|
    ensures p[i] in d && d[p[i]] == Some(p[i + 1])
  {
    assert p[i + 1] in Renamings(d)[p[i]];
  }

  lemma {:induction false} OneEnd(d: Declared, p: seq<string>, q: seq<string>)
    requires Path(Renamings(d), p) && Path(Renamings(d), q) && p[0] == q[0]
    requires p[|p| - 1] in d ==> d[p[|p| - 1]] == None
    requires q[|q| - 1] in d ==> d[q[|q| - 1]] == None
    ensures p[|p| - 1] == q[|q| - 1]
    decreases |p|
  {
    if |p| > 1 { RenamedTo(d, p, 0); }
    if |q| > 1 { RenamedTo(d, q, 0); }
    if |p| > 1 && |q| > 1 {
      PathTail(Renamings(d), p);
      PathTail(Renamings(d), q);
      OneEnd(d, p[1..], q[1..]);
    }
  }

  /** A chain of renamings has one end only. */
  lemma LatestIsUnique(d: Declared, name: string, a: string, b: string)
    requires IsLatest(d, name, a) && IsLatest(d, name, b)
    ensures a == b
  {
    var p :| PathFrom(Renamings(d), p, Clean(name), a);
    var q :| PathFrom(Renamings(d), q, Clean(name), b);
    OneEnd(d, p, q);
  }

  /** A name is the latest of its own chain exactly if it is clean and has no renaming. */
  lemma OwnLatest(d: Declared, name: string)
    requires CleanTargets(d)
    ensures IsLatest(d, name, name) <==> Clean(name) == name && (name in d ==> d[name] == None)
  {
    var g := Renamings(d);
    if Clean(name) == name {
      ReachesSelf(g, name);
    } else if Reaches(g, Clean(name), name) {
      var p :| PathFrom(g, p, Clean(name), name);
      if |p| > 1 { RenamedTo(d, p, |p| - 2); }
    }
  }

  /** A declared renaming makes the answer wrong: the latest name of `a` is `b`. */
  lemma LatestNameFails()
    ensures var d: Declared := map["" := None, "'" := None, "a" := Some("b"), "b" := None];
            IsLatest(d, "a", "b") && !IsLatest(d, "a", "a")
  {
    var d: Declared := map["" := None, "'" := None, "a" := Some("b"), "b" := None];
    assert Clean("a") == "a" && Clean("b") == "b";
    assert PathFrom(Renamings(d), ["a", "b"], "a", "b");
  }

  class NameContext {
    var declared: Declared

    /** The two reserved names are declared, renamings lead to clean names, and they have no cycle. */
    ghost predicate Valid()
      reads this
    {
      Legal(declared)
    }

    constructor ()
      ensures Valid() && declared == map["" := None, "'" := None]
    {
      declared := map["" := None, "'" := None];
      new;
      assert Ranked(Renamings(declared), _ => 0);
    }

    constructor Clone(from: NameContext)
      ensures declared == from.declared
    {
      declared := from.declared;
    }

    method IsDeclared(name: string) returns (r: bool)
      ensures r <==> Taken(declared.Keys, name)
    {
      var clean := CleanName(name);
      r := clean in declared;
    }

    method Declare(name: string) returns (added: bool)
      requires Valid()
      modifies this
      ensures Valid()
      ensures added <==> Clean(name) !in old(declared)
      ensures declared == if added then old(declared)[Clean(name) := None] else old(declared)
    {
      var clean := CleanName(name);
      added := clean !in declared;
      if added {
        EndingKeepsRank(declared, clean);
        declared := declared[clean := None];
      }
    }

    method DeclareRenaming(old_: string, new_: string)
      modifies this
      ensures declared == Renamed(old(declared), old_, new_)
    {
      var oldClean := CleanName(old_);
      var newClean := CleanName(new_);
      if oldClean != newClean {
        declared := declared[oldClean := Some(newClean)];
      }
    }

    method DeclareRenamed(original: string, renamed: string)
      requires Valid()
      modifies this
      ensures Valid()
      ensures declared == Renamed(old(declared), original, renamed)[Clean(renamed) := None]
      ensures old(declared).Keys <= declared.Keys
    {
      var origClean := CleanName(original);
      var renClean := CleanName(renamed);
      EndingKeepsRank(declared, renClean);
      if origClean != renClean {
        RenamingKeepsRank(declared[renClean := None], original, renamed);
        assert Renamed(declared[renClean := None], original, renamed) == Renamed(declared, original, renamed)[renClean := None];
        DeclareRenaming(original, renamed);
      }
      declared := declared[renClean := None];
    }

    /** The loop that follows renamings; it ends because they have no cycle. */
    method FollowRenamings(name: string) returns (cur: string)
      requires Valid()
      ensures IsLatest(declared, name, cur)
    {
      ghost var rank: string -> nat :| Ranked(Renamings(declared), rank);
      cur := CleanName(name);
      ReachesSelf(Renamings(declared), cur);
      while cur in declared && declared[cur].Some?
        invariant Reaches(Renamings(declared), Clean(name), cur)
        decreases rank(cur)
      {
        var next := declared[cur].value;
        RankedEdge(Renamings(declared), rank, cur, next);
        ReachesSelf(Renamings(declared), next);
        ReachesStep(Renamings(declared), cur, next, next);
        ReachesTransitive(Renamings(declared), Clean(name), cur, next);
        cur := next;
      }
    }

    /**
     The end of the chain is found, but the argument is returned: that is the latest name exactly if it is clean and
     has no renaming.
     */
    method LatestName(name: string) returns (r: string)
      requires Valid()
      ensures IsLatest(declared, name, r) <==> Clean(name) == name && (name in declared ==> declared[name] == None)
      ensures r == name
    {
      var _ := FollowRenamings(name);
      OwnLatest(declared, name);
      return name;
    }

    /** The first free names in bumping order. The check against names invented before never fails. */
    method Invent(base: string, n: nat) returns (result: seq<string>)
      ensures result == FreeNames(declared.Keys, Clean(base), n)
    {
      result := [];
      var x := CleanName(base);
      var count := 0;
      ghost var names := declared.Keys;
      ghost var wanted := FreeNames(names, x, n);
      assert Finding(names, wanted, result, x) by { FreeNamesDistinct(names, x, n); }
      while count < n
        invariant count == |result| <= n && Finding(names, wanted, result, x)
        decreases n - count, |Above(names, x)|, if EndsBare(x) then 1 else 0
      {
        SearchAdvances(names, x);
        var taken := IsDeclared(x);
        if taken { InventSkip(names, wanted, result, x); } else { InventTake(names, wanted, result, x); }
        if !taken && x !in result {
          result, count := result + [x], count + 1;
        }
        x := BumpString(x);
      }
      assert wanted == result;
    }

    /** A name not taken before, and a new context in which it is declared; this context stays as it is. */
    method Variant(name: string) returns (result: string, ctx: NameContext)
      requires Valid()
      ensures result == VariantName(declared.Keys, name)
      ensures fresh(ctx) && ctx.Valid() && ctx.declared == VariantContext(declared, name)
    {
      var base, underscores := CleanIndex(name);
      ctx := new NameContext.Clone(this);
      var free: string;
      var taken := ctx.IsDeclared(base);
      if !taken {
        free := base;
      } else {
        var x0 := BumpInit(base);
        free := x0;
        taken := ctx.IsDeclared(free);
        while taken
          invariant ctx.declared == declared && FirstFree(declared.Keys, x0) == FirstFree(declared.Keys, free)
          invariant taken <==> Taken(declared.Keys, free)
          decreases |Above(declared.Keys, free)|, if EndsBare(free) then 1 else 0
        {
          SearchAdvances(declared.Keys, free);
          free := BumpString(free);
          taken := ctx.IsDeclared(free);
        }
        if Clean(x0) != Clean(free) { RenamingKeepsRank(declared, x0, free); }
        ctx.DeclareRenaming(x0, free);
      }
      EndingKeepsRank(ctx.declared, free);
      ctx.declared := ctx.declared[free := None];
      result := free + Underscores(underscores);
    }

    method Variants(names: seq<string>) returns (result: seq<string>, ctx: NameContext)
      requires Valid()
      ensures result == VariantsNames(declared, names)
      ensures fresh(ctx) && ctx.Valid() && ctx.declared == VariantsContext(declared, names)
    {
      ctx := new NameContext.Clone(this);
      result := [];
      VariantsStart(declared, names);
      for i := 0 to |names|
        invariant fresh(ctx) && ctx.Valid() && Underway(declared, names, result, ctx.declared, i)
      {
        VariantsStep(declared, names, result, ctx.declared, i);
        var v, next := ctx.Variant(names[i]);
        result := result + [v];
        ctx := next;
      }
      VariantsEnd(declared, names, result, ctx.declared);
    }
  }
}
