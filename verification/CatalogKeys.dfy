/**
 The order of the keys of the HFS+ catalog, OpenHfsPlus/fsw_hfsplus.c. The
 comparison methods walk two length-counted strings; the reference order is the
 lexicographic one on the parent ID and the case-folded name.
 */
module CatalogKeys {
  import opened Words

  datatype Key = Key(parentID: u32, name: seq<u16>)

  /** fsw_hfsplus_int_cmp */
  function IntCmp(a: int, b: int): (r: int)
    ensures r < 0 <==> a < b
    ensures r == 0 <==> a == b
    ensures -1 <= r <= 1
  {
    if a < b then -1 else if a > b then 1 else 0
  }

  /** The capital letters that are matched with a small letter: A to Z, and four ligatures of Latin-1. */
  predicate Capital(u: u16) {
    0x41 <= u <= 0x5A || u in {0xC6, 0xD0, 0xD8, 0xDE}
  }

  /** Units that the catalog does not tell apart: a capital and its small letter, and the units 0 and 0xFFFF. */
  predicate Alike(u: u16, v: u16) {
    || u == v
    || (Capital(u) && v == u + 0x20) || (Capital(v) && u == v + 0x20)
    || (u == 0 && v == 0xFFFF) || (u == 0xFFFF && v == 0)
  }

  /** One unit of each kind is plain, and 0 is not: it is free to mark the end of a name. */
  predicate Plain(u: u16) {
    u != 0 && !Capital(u)
  }

  /** fsw_hfsplus_ucblatin_tolower: the plain unit that is like c. */
  function Fold(c: u16): (r: u16)
    ensures forall v: u16 :: Plain(v) && Alike(c, v) <==> v == r
  {
    if c == 0 then 0xFFFF
    else if c == 0xC6 || c == 0xD0 || c == 0xD8 || c == 0xDE || 0x41 <= c <= 0x5A then c + 0x20
    else c
  }

  lemma FoldsAlike(u: u16, v: u16)
    ensures Fold(u) == Fold(v) <==> Alike(u, v)
  {
    assert Plain(Fold(u)) && Alike(u, Fold(u)) && Plain(Fold(v)) && Alike(v, Fold(v));
  }

  /** The keys differ in nothing but the kind of their letters. */
  ghost predicate KeysAlike(a: Key, b: Key) {
    && a.parentID == b.parentID && |a.name| == |b.name|
    && forall i :: 0 <= i < |a.name| ==> Alike(a.name[i], b.name[i])
  }

  /** i is the first place where the names are not alike, or where one of them has ended. */
  ghost predicate PartAt(a: seq<u16>, b: seq<u16>, i: nat) {
    && i <= |a| && i <= |b| && (forall j :: 0 <= j < i ==> Alike(a[j], b[j]))
    && (i == |a| || i == |b| || !Alike(a[i], b[i]))
  }

  /** There, a is the one that has ended, or has the unit whose plain form is the smaller. */
  ghost predicate EarlierAt(a: seq<u16>, b: seq<u16>, i: nat)
    requires i <= |a| && i <= |b|
  {
    i < |b| && (i == |a| || forall x: u16, y: u16 :: Plain(x) && Alike(a[i], x) && Plain(y) && Alike(b[i], y) ==> x < y)
  }

  // ----- The reference order -----

  /** A name with every unit folded. */
  ghost function Folded(name: seq<u16>): seq<u16> {
    seq(|name|, i requires 0 <= i < |name| => Fold(name[i]))
  }

  /** a is a proper prefix of b, or smaller at the first place where they differ. */
  ghost predicate LexLess(a: seq<int>, b: seq<int>) {
    exists i :: LessAt(a, b, i)
  }

  ghost predicate LessAt(a: seq<int>, b: seq<int>, i: int) {
    0 <= i <= |a| && i < |b| && a[..i] == b[..i] && (i == |a| || a[i] < b[i])
  }

  /** A key as one word: the parent ID, then the folded name. */
  ghost function Word(k: Key): seq<int> {
    [k.parentID] + Folded(k.name)
  }

  ghost predicate Less(a: Key, b: Key) {
    LexLess(Word(a), Word(b))
  }

  /** Keys that the order does not tell apart: names that differ in case only. */
  ghost predicate Same(a: Key, b: Key) {
    a.parentID == b.parentID && Folded(a.name) == Folded(b.name)
  }

  lemma SameIsAlike(a: Key, b: Key)
    ensures Same(a, b) <==> KeysAlike(a, b)
  {
    if Same(a, b) {
      forall i | 0 <= i < |a.name|
        ensures Alike(a.name[i], b.name[i])
      {
        assert Folded(a.name)[i] == Folded(b.name)[i];
        FoldsAlike(a.name[i], b.name[i]);
      }
    }
    if KeysAlike(a, b) {
      forall i | 0 <= i < |a.name|
        ensures Fold(a.name[i]) == Fold(b.name[i])
      {
        FoldsAlike(a.name[i], b.name[i]);
      }
      assert Folded(a.name) == Folded(b.name);
    }
  }

  lemma SameIsSameWord(a: Key, b: Key)
    ensures Same(a, b) <==> Word(a) == Word(b)
  {
    assert Word(a)[1..] == Folded(a.name) && Word(b)[1..] == Folded(b.name);
    assert Word(a)[0] == a.parentID && Word(b)[0] == b.parentID;
  }

  lemma {:induction false} LexTotal(a: seq<int>, b: seq<int>)
    ensures LexLess(a, b) || a == b || LexLess(b, a)
  {
    if a != [] && b != [] && a[0] == b[0] {
      LexTotal(a[1..], b[1..]);
      LexTail(a, b);
      LexTail(b, a);
      assert a == [a[0]] + a[1..] && b == [b[0]] + b[1..];
    } else {
      assert a[..0] == b[..0];
      assert LessAt(a, b, 0) || a == b || LessAt(b, a, 0);
    }
  }

  lemma LexTail(a: seq<int>, b: seq<int>)
    requires a != [] && b != [] && a[0] == b[0]
    ensures LexLess(a[1..], b[1..]) ==> LexLess(a, b)
  {
    if LexLess(a[1..], b[1..]) {
      var i :| LessAt(a[1..], b[1..], i);
      assert a[..i + 1] == [a[0]] + a[1..][..i] && b[..i + 1] == [b[0]] + b[1..][..i];
      assert LessAt(a, b, i + 1);
    }
  }

  // ----- The order in the real numbers -----

  /** A folded name read as the digits of a fraction in base 2^16. */
  ghost function Fraction(s: seq<u16>): real {
    if s == [] then 0.0 else (s[0] as real + Fraction(s[1..])) / 65536.0
  }

  /** A number for every key that shows the order: the parent ID, and the name after the point. */
  ghost function Rank(k: Key): real {
    k.parentID as real + Fraction(Folded(k.name))
  }

  ghost predicate NoZero(s: seq<u16>) {
    forall i :: 0 <= i < |s| ==> s[i] > 0
  }

  lemma {:induction false} FractionBounds(s: seq<u16>)
    requires NoZero(s)
    ensures 0.0 <= Fraction(s) < 1.0
    ensures Fraction(s) == 0.0 <==> s == []
  {
    if s != [] {
      FractionBounds(s[1..]);
    }
  }

  lemma {:induction false} FractionLess(a: seq<u16>, b: seq<u16>, i: int)
    requires NoZero(a) && NoZero(b)
    requires LessAt(a, b, i)
    ensures Fraction(a) < Fraction(b)
    decreases i
  {
    FractionBounds(a);
    FractionBounds(b);
    if a != [] {
      FractionBounds(a[1..]);
      FractionBounds(b[1..]);
      if i > 0 {
        assert a[0] == a[..i][0] == b[..i][0] == b[0];
        assert a[1..][..i - 1] == a[..i][1..] && b[1..][..i - 1] == b[..i][1..];
        FractionLess(a[1..], b[1..], i - 1);
      }
    }
  }

  lemma RankLess(a: Key, b: Key)
    requires Less(a, b)
    ensures Rank(a) < Rank(b)
  {
    var x, y := Folded(a.name), Folded(b.name);
    FractionBounds(x);
    FractionBounds(y);
    var i :| LessAt(Word(a), Word(b), i);
    if i > 0 {
      assert Word(a)[..i] == [a.parentID] + x[..i - 1] && Word(b)[..i] == [b.parentID] + y[..i - 1];
      assert Word(a)[..i][0] == Word(b)[..i][0];
      assert Word(a)[..i][1..] == x[..i - 1] && Word(b)[..i][1..] == y[..i - 1];
      FractionLess(x, y, i - 1);
    }
  }

  /** The lexicographic order of the keys is the order of their numbers; case is not seen. */
  lemma RankOrders(a: Key, b: Key)
    ensures Less(a, b) <==> Rank(a) < Rank(b)
    ensures Same(a, b) <==> Rank(a) == Rank(b)
  {
    LexTotal(Word(a), Word(b));
    SameIsSameWord(a, b);
    if Less(a, b) {
      RankLess(a, b);
    } else if Less(b, a) {
      RankLess(b, a);
    }
  }

  /** Keys that differ in nothing but the kind of their letters have one number. */
  lemma RankAlike(a: Key, b: Key)
    ensures Rank(a) == Rank(b) <==> KeysAlike(a, b)
  {
    RankOrders(a, b);
    SameIsAlike(a, b);
  }

  /** Hence the keys, with those that differ in case only identified, are totally ordered. */
  lemma KeysTotallyOrdered(a: Key, b: Key, c: Key)
    ensures Less(a, b) || Same(a, b) || Less(b, a)
    ensures !(Less(a, b) && Less(b, a)) && !(Less(a, b) && Same(a, b))
    ensures Less(a, b) && Less(b, c) ==> Less(a, c)
    ensures Same(a, b) ==> (Less(a, c) <==> Less(b, c)) && (Less(c, a) <==> Less(c, b))
  {
    RankOrders(a, b);
    RankOrders(b, a);
    RankOrders(b, c);
    RankOrders(c, b);
    RankOrders(a, c);
    RankOrders(c, a);
  }

  /** What a comparison must return: the sign says how the two keys are ordered. */
  ghost predicate Orders(r: int, a: Key, b: Key) {
    (r < 0 <==> Less(a, b)) && (r == 0 <==> Same(a, b)) && (r > 0 <==> Less(b, a))
  }

  /** Of two keys with one parent, the place where the names part decides. */
  lemma PartDecides(a: Key, b: Key, i: nat)
    requires a.parentID == b.parentID && PartAt(a.name, b.name, i)
    ensures Less(a, b) <==> EarlierAt(a.name, b.name, i)
  {
    var x, y := Word(a), Word(b);
    forall j | 0 <= j < i
      ensures Fold(a.name[j]) == Fold(b.name[j])
    {
      FoldsAlike(a.name[j], b.name[j]);
    }
    assert x[..i + 1] == y[..i + 1];
    if i < |a.name| && i < |b.name| {
      FoldsAlike(a.name[i], b.name[i]);
      assert Plain(Fold(a.name[i])) && Alike(a.name[i], Fold(a.name[i]));
      assert Plain(Fold(b.name[i])) && Alike(b.name[i], Fold(b.name[i]));
    }
    assert EarlierAt(a.name, b.name, i) ==> LessAt(x, y, i + 1);
    forall j
      ensures LessAt(x, y, j) ==> j == i + 1
    {
      PartOnly(x, y, i + 1, j);
    }
  }

  /** Words that part at a place are ordered by nothing else. */
  lemma PartOnly(a: seq<int>, b: seq<int>, i: nat, j: int)
    requires i <= |a| && i <= |b| && a[..i] == b[..i] && (i == |a| || i == |b| || a[i] != b[i])
    ensures LessAt(a, b, j) ==> j == i
  {
    assert 0 <= j < i ==> a[..i][j] == b[..i][j];
    assert i < j <= |a| && j <= |b| ==> a[..j][i] == a[i] && b[..j][i] == b[i];
  }

  /** And the parents decide first. */
  lemma ParentDecides(a: Key, b: Key)
    requires a.parentID != b.parentID
    ensures Less(a, b) <==> a.parentID < b.parentID
  {
    DecideByParent(a, b);
  }

  /**
   The sign that a comparison must give, by the units of the names themselves: 0
   for keys that are alike, and otherwise as the parents are ordered or, for one
   parent, the names at the place where they part.
   */
  ghost predicate Compares(r: int, a: Key, b: Key) {
    && (r == 0 <==> KeysAlike(a, b))
    && (a.parentID != b.parentID ==> (r < 0 <==> a.parentID < b.parentID))
    && (a.parentID == b.parentID ==>
          forall i: nat :: PartAt(a.name, b.name, i) ==>
            (r < 0 <==> EarlierAt(a.name, b.name, i)) && (r > 0 <==> EarlierAt(b.name, a.name, i)))
  }

  lemma OrdersCompares(r: int, a: Key, b: Key)
    requires Orders(r, a, b)
    ensures Compares(r, a, b)
  {
    SameIsAlike(a, b);
    if a.parentID != b.parentID {
      ParentDecides(a, b);
    } else {
      forall i: nat | PartAt(a.name, b.name, i)
        ensures (r < 0 <==> EarlierAt(a.name, b.name, i)) && (r > 0 <==> EarlierAt(b.name, a.name, i))
      {
        PartDecides(a, b, i);
        PartDecides(b, a, i);
      }
    }
  }

  // ----- The comparisons -----

  /** The rest of a name from index i on, in comparison order, with 0 for its end. */
  function UnitAt(name: seq<u16>, i: nat): (r: u16)
    ensures r == 0 <==> i >= |name|
    ensures i < |name| ==> r == Folded(name)[i]
  {
    if i < |name| then Fold(name[i]) else 0
  }

  /** Two keys of one parent whose names agree before index i and differ at i, or both end there. */
  lemma Decide(a: Key, b: Key, i: nat)
    requires a.parentID == b.parentID
    requires i <= |a.name| && i <= |b.name| && Folded(a.name)[..i] == Folded(b.name)[..i]
    requires UnitAt(a.name, i) != UnitAt(b.name, i) || UnitAt(b.name, i) == 0
    ensures Orders(IntCmp(UnitAt(a.name, i), UnitAt(b.name, i)), a, b)
  {
    var x, y := Word(a), Word(b);
    KeysTotallyOrdered(a, b, a);
    KeysTotallyOrdered(b, a, b);
    assert x[..i + 1] == [a.parentID] + Folded(a.name)[..i];
    assert y[..i + 1] == [b.parentID] + Folded(b.name)[..i];
    if UnitAt(a.name, i) < UnitAt(b.name, i) {
      assert LessAt(x, y, i + 1);
    } else if UnitAt(a.name, i) > UnitAt(b.name, i) {
      assert LessAt(y, x, i + 1);
    } else {
      assert Folded(a.name)[..i] == Folded(a.name) && Folded(b.name)[..i] == Folded(b.name);
    }
  }

  lemma DecideByParent(a: Key, b: Key)
    requires a.parentID != b.parentID
    ensures Orders(IntCmp(a.parentID, b.parentID), a, b)
  {
    KeysTotallyOrdered(a, b, a);
    KeysTotallyOrdered(b, a, b);
    assert Word(a)[..0] == Word(b)[..0];
    assert if a.parentID < b.parentID then LessAt(Word(a), Word(b), 0) else LessAt(Word(b), Word(a), 0);
  }

  /** fsw_hfsplus_cat_cmp: the two inner loops look for the next unit that does not fold to 0. */
  method CatCmp(tk: Key, sk: Key) returns (ret: int)
    ensures Orders(ret, tk, sk)
    ensures Compares(ret, tk, sk)
  {
    ret := IntCmp(tk.parentID, sk.parentID);
    if ret != 0 {
      DecideByParent(tk, sk);
      OrdersCompares(ret, tk, sk);
      return;
    }
    var t, s := 0, 0;
    while true
      invariant t == s <= |tk.name| && s <= |sk.name|
      invariant Folded(tk.name)[..s] == Folded(sk.name)[..s]
      decreases |sk.name| - s
    {
      ghost var i := s;
      var tChar, sChar := 0, 0;
      while tChar == 0 && t < |tk.name|
        invariant i <= t <= i + 1 && t <= |tk.name|
        invariant tChar == if t == i then 0 else UnitAt(tk.name, i)
      {
        tChar := Fold(tk.name[t]);
        t := t + 1;
      }
      while sChar == 0 && s < |sk.name|
        invariant i <= s <= i + 1 && s <= |sk.name|
        invariant sChar == if s == i then 0 else UnitAt(sk.name, i)
      {
        sChar := Fold(sk.name[s]);
        s := s + 1;
      }
      ret := IntCmp(tChar, sChar);
      if ret != 0 || sChar == 0 {
        Decide(tk, sk, i);
        OrdersCompares(ret, tk, sk);
        return;
      }
      assert forall n: seq<u16> :: i < |n| ==> Folded(n)[..i + 1] == Folded(n)[..i] + [Folded(n)[i]];
    }
  }

  /** fsw_hfsplus_thread_cmp: the name sought is taken to be empty, whatever it holds. */
  method ThreadCmp(tk: Key, sk: Key) returns (ret: int)
    ensures Orders(ret, tk, sk.(name := []))
    ensures ret == 0 <==> tk.parentID == sk.parentID && tk.name == []
    ensures ret < 0 <==> tk.parentID < sk.parentID
  {
    ret := IntCmp(tk.parentID, sk.parentID);
    if ret != 0 {
      DecideByParent(tk, sk.(name := []));
      return;
    }
    ret := if |tk.name| > 0 then 1 else 0;
    Decide(tk, sk.(name := []), 0);
  }
}
