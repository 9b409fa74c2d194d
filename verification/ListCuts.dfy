/**
 Cutting a truncated page of a listing. The store orders keys with the slash of directories,
 the directory is read in the order of names without it, so a page may only be kept up to a
 key after which no smaller name can come.
 */
module ListCuts {
  import opened ByteOrder

  datatype Entry = Entry(key: string, isPrefix: bool) {
    /** The name as the directory shows it: without the trailing slash. */
    function Name(): string
    {
      if isPrefix && key != [] then key[..|key| - 1] else key
    }

    ghost predicate ValidDir(prefixLen: nat)
    {
      isPrefix ==> key == Name() + "/" && DirName(Name(), prefixLen)
    }
  }

  /** The name of a directory has, after the listing's prefix, something besides slashes. */
  ghost predicate DirName(d: string, prefixLen: nat)
  {
    exists i: int :: prefixLen <= i < |d| && d[i] != '/'
  }

  // ----- Characters before the slash -----

  /** A character before the slash, after a directory name. */
  ghost predicate LtSlash(inp: string, prefixLen: nat, p: int)
  {
    0 <= p < |inp| && inp[p] < '/' && DirName(inp[..p], prefixLen)
  }

  ghost predicate IsFirstLt(inp: string, prefixLen: nat, pos: int)
  {
    && -1 <= pos < |inp| && (pos >= 0 ==> LtSlash(inp, prefixLen, pos))
    && (forall p: int :: 0 <= p < (if pos < 0 then |inp| else pos) ==> !LtSlash(inp, prefixLen, p))
  }

  /** The first such character, or -1. */
  method LocateLtSlash(inp: string, prefixLen: nat) returns (pos: int)
    ensures IsFirstLt(inp, prefixLen, pos)
  {
    var i := prefixLen;
    while i < |inp| && inp[i] == '/'
      invariant prefixLen <= i
      invariant forall p: int :: prefixLen <= p < i && p < |inp| ==> inp[p] == '/'
    {
      i := i + 1;
    }
    ghost var word := i;
    i := i + 1;
    while i < |inp|
      invariant prefixLen <= word < i
      invariant forall p: int :: 0 <= p < i && p < |inp| ==> !LtSlash(inp, prefixLen, p)
    {
      if inp[i] < '/' {
        assert inp[..i][word] != '/';
        return i;
      }
      i := i + 1;
    }
    return -1;
  }

  /** Keys strictly between `d` and `d/` continue `d` with a character before the slash. */
  lemma {:induction false} Between(d: string, key: string)
    requires Less(d, key) && Less(key, d + "/")
    ensures |d| < |key| && key[..|d|] == d && key[|d|] < '/'
  {
    if d != [] {
      assert (d + "/")[1..] == d[1..] + "/";
      Between(d[1..], key[1..]);
      assert key == [key[0]] + key[1..] && d == [d[0]] + d[1..];
    } else {
      Empty(key[1..]);
    }
  }

  lemma Empty(s: string)
    ensures !Less(s, "")
  {
  }

  /** If a name after the cut is smaller than a kept one, it is a directory `d` with `last` between `d` and `d/`. */
  lemma SmallerName(kept: Entry, later: Entry, last: string, prefixLen: nat)
    requires AtMost(kept.key, last) && Less(last, later.key) && later.ValidDir(prefixLen)
    requires Less(later.Name(), kept.Name())
    ensures later.isPrefix && Less(later.Name(), last) && Less(last, later.Name() + "/")
  {
    NameAtMostKey(kept);
    AtMostTransitive(kept.Name(), kept.key, last);
    AtMostTransitive(later.Name(), kept.Name(), last);
    if !later.isPrefix { Asymmetric(last, later.key); }
  }

  lemma NameAtMostKey(e: Entry)
    ensures AtMost(e.Name(), e.key)
  {
    if e.isPrefix && e.key != [] {
      assert e.key == e.Name() + [e.key[|e.key| - 1]];
      Longer(e.Name(), [e.key[|e.key| - 1]]);
    }
  }

  lemma {:induction false} Longer(a: string, x: string)
    requires x != []
    ensures Less(a, a + x)
  {
    if a != [] {
      assert (a + x)[1..] == a[1..] + x;
      Longer(a[1..], x);
    }
  }

  /** Everything that continues `s1` from `pos` on, up to and with the slash, comes before `s2`. */
  predicate PrefixLarger(s1: string, s2: string, pos: nat)
    requires pos <= |s1|
  {
    || (|s2| > pos && Less(s1[..pos], s2[..pos]))
    || (|s2| <= pos && Less(s1[..pos], s2))
    || (|s2| > pos && s1[..pos] == s2[..pos] && s2[pos] > '/')
  }

  lemma {:induction false} LessDecided(a: string, b: string, x: string, y: string)
    requires Less(a, b) && |a| >= |b|
    ensures Less(a + x, b + y)
  {
    if a != [] {
      assert (a + x)[1..] == a[1..] + x && (b + y)[1..] == b[1..] + y;
      if a[0] == b[0] { LessDecided(a[1..], b[1..], x, y); }
    }
  }

  lemma {:induction false} LessAfter(p: string, a: string, b: string)
    requires Less(a, b)
    ensures Less(p + a, p + b)
  {
    if p == [] {
      assert p + a == a && p + b == b;
    } else {
      assert (p + a)[1..] == p[1..] + a && (p + b)[1..] == p[1..] + b;
      LessAfter(p[1..], a, b);
    }
  }

  /** All that lies in such a directory is passed, too. */
  lemma PrefixLargerPasses(s1: string, s2: string, pos: nat, d: string, x: string)
    requires pos < |s1| && s1[pos] < '/' && PrefixLarger(s1, s2, pos) && pos <= |d| < |s1| && s1[..|d|] == d
    ensures Less(d + "/" + x, s2)
  {
    var rest := d[pos..] + "/" + x;
    assert d + "/" + x == s1[..pos] + rest;
    if |s2| > pos && Less(s1[..pos], s2[..pos]) {
      LessDecided(s1[..pos], s2[..pos], rest, s2[pos..]);
      assert s2 == s2[..pos] + s2[pos..];
    } else if |s2| <= pos && Less(s1[..pos], s2) {
      LessDecided(s1[..pos], s2, rest, "");
      assert s2 == s2 + "";
    } else {
      assert rest[0] <= '/' by { if |d| > pos { assert d[pos] == s1[pos]; } }
      LessAfter(s1[..pos], rest, s2[pos..]);
      assert s2 == s2[..pos] + s2[pos..];
    }
  }

  /** If the prefix is not larger, something in the directory is not passed. */
  lemma PrefixLargerMisses(s1: string, s2: string, pos: nat) returns (x: string)
    requires pos < |s1| && !PrefixLarger(s1, s2, pos)
    ensures AtMost(s2, s1[..pos] + "/" + x)
  {
    var d := s1[..pos];
    x := "";
    if |s2| <= pos {
      Total(d, s2);
      Longer(d, "/");
      AtMostTransitive(s2, d, d + "/");
    } else if d == s2[..pos] {
      assert s2 == d + s2[pos..];
      if s2[pos] == '/' {
        x := s2[pos + 1..];
        assert s2 == d + "/" + x;
      } else {
        LessAfter(d, s2[pos..], "/");
      }
    } else {
      Total(d, s2[..pos]);
      LessDecided(s2[..pos], d, s2[pos..], "/");
      assert s2 == s2[..pos] + s2[pos..];
    }
    assert d + "/" + "" == d + "/";
  }

  // ----- What a cut may hide -----

  /** Directory `d` comes before `last`, but its key after it, and something in it is not before `next`. */
  ghost predicate Hides(last: string, next: string, prefixLen: nat, d: string, x: string)
  {
    DirName(d, prefixLen) && Less(d, last) && Less(last, d + "/") && AtMost(next, d + "/" + x)
  }

  ghost predicate Risky(last: string, next: string, prefixLen: nat)
  {
    exists d: string, x: string :: Hides(last, next, prefixLen, d, x)
  }

  lemma HiddenShows(last: string, next: string, prefixLen: nat, ltPos: int, d: string, x: string)
    requires IsFirstLt(last, prefixLen, ltPos) && Hides(last, next, prefixLen, d, x)
    ensures ltPos >= 0 && !PrefixLarger(last, next, ltPos)
  {
    Between(d, last);
    assert LtSlash(last, prefixLen, |d|);
    if PrefixLarger(last, next, ltPos) {
      PrefixLargerPasses(last, next, ltPos, d, x);
      AtMostTransitive(next, d + "/" + x, next);
      Irreflexive(next);
    }
  }

  /** The test made at a cut is exact: it fails if and only if a directory may hide behind `last`. */
  lemma TestIsExact(last: string, next: string, prefixLen: nat, ltPos: int)
    requires IsFirstLt(last, prefixLen, ltPos)
    ensures Risky(last, next, prefixLen) <==> ltPos >= 0 && !PrefixLarger(last, next, ltPos)
  {
    if Risky(last, next, prefixLen) {
      var d, x :| Hides(last, next, prefixLen, d, x);
      HiddenShows(last, next, prefixLen, ltPos, d, x);
    }
    if ltPos >= 0 && !PrefixLarger(last, next, ltPos) {
      var d := last[..ltPos];
      var x := PrefixLargerMisses(last, next, ltPos);
      assert last == d + last[ltPos..];
      Longer(d, last[ltPos..]);
      LessAfter(d, last[ltPos..], "/");
      assert Hides(last, next, prefixLen, d, x);
    }
  }

  // ----- Pages -----

  ghost predicate Sorted(keys: seq<string>)
  {
    forall i: int, j: int :: 0 <= i < j < |keys| ==> Less(keys[i], keys[j])
  }

  ghost predicate ValidPage(items: seq<string>, prefixes: seq<string>)
  {
    Sorted(items) && Sorted(prefixes) && forall i: int, j: int :: 0 <= i < |items| && 0 <= j < |prefixes| ==>
      items[i] != prefixes[j]
  }

  ghost predicate Kept(items: seq<string>, prefixes: seq<string>, e: Entry)
  {
    if e.isPrefix then e.key in prefixes else e.key in items
  }

  /** The kept keys are up to `key`; the dropped ones are not before `next`. */
  ghost predicate UpTo(items: seq<string>, prefixes: seq<string>, itemPos: nat, prefixPos: nat, key: string)
    requires itemPos <= |items| && prefixPos <= |prefixes|
  {
    && (forall i: int :: 0 <= i < itemPos ==> AtMost(items[i], key))
    && (forall i: int :: 0 <= i < prefixPos ==> AtMost(prefixes[i], key))
  }

  ghost predicate Below(items: seq<string>, prefixes: seq<string>, itemPos: nat, prefixPos: nat, key: string)
    requires itemPos <= |items| && prefixPos <= |prefixes|
  {
    && (forall i: int :: 0 <= i < itemPos ==> Less(items[i], key))
    && (forall i: int :: 0 <= i < prefixPos ==> Less(prefixes[i], key))
  }

  ghost predicate From(items: seq<string>, prefixes: seq<string>, itemPos: nat, prefixPos: nat, key: string)
    requires itemPos <= |items| && prefixPos <= |prefixes|
  {
    && (forall i: int :: itemPos <= i < |items| ==> AtMost(key, items[i]))
    && (forall i: int :: prefixPos <= i < |prefixes| ==> AtMost(key, prefixes[i]))
  }

  /** `name` is the greatest of the first keys, and where it is. */
  ghost predicate IsMax(items: seq<string>, prefixes: seq<string>, itemPos: nat, prefixPos: nat, name: string,
                        isPrefix: nat)
    requires itemPos <= |items| && prefixPos <= |prefixes|
  {
    if itemPos + prefixPos == 0 then name == ""
    else if isPrefix == 1 then prefixPos > 0 && name == prefixes[prefixPos - 1]
    else itemPos > 0 && name == items[itemPos - 1]
  }

  method MaxName(items: seq<string>, prefixes: seq<string>, itemPos: nat, prefixPos: nat)
    returns (name: string, isPrefix: nat)
    requires ValidPage(items, prefixes) && itemPos <= |items| && prefixPos <= |prefixes|
    ensures isPrefix <= 1 && UpTo(items, prefixes, itemPos, prefixPos, name)
    ensures IsMax(items, prefixes, itemPos, prefixPos, name, isPrefix)
  {
    if itemPos > 0 && prefixPos > 0 { MaxOfTwo(items, prefixes, itemPos, prefixPos); }
    if itemPos > 0 && (prefixPos == 0 || Less(prefixes[prefixPos - 1], items[itemPos - 1])) {
      return items[itemPos - 1], 0;
    }
    if prefixPos == 0 {
      return "", 0;
    }
    return prefixes[prefixPos - 1], 1;
  }

  lemma MaxOfTwo(items: seq<string>, prefixes: seq<string>, itemPos: nat, prefixPos: nat)
    requires ValidPage(items, prefixes) && 0 < itemPos <= |items| && 0 < prefixPos <= |prefixes|
    ensures var i, p := items[itemPos - 1], prefixes[prefixPos - 1];
            UpTo(items, prefixes, itemPos, prefixPos, if Less(p, i) then i else p)
  {
    var i, p := items[itemPos - 1], prefixes[prefixPos - 1];
    Total(i, p);
    forall j: int | 0 <= j < itemPos ensures AtMost(items[j], i) && (!Less(p, i) ==> AtMost(items[j], p)) {
      if !Less(p, i) { AtMostTransitive(items[j], i, p); }
    }
    forall j: int | 0 <= j < prefixPos ensures AtMost(prefixes[j], p) && (Less(p, i) ==> AtMost(prefixes[j], i)) {
      if Less(p, i) { AtMostTransitive(prefixes[j], p, i); }
    }
  }

  /** An entry that is dropped from the page, or comes on a later page. */
  ghost predicate Later(items: seq<string>, prefixes: seq<string>, itemPos: nat, prefixPos: nat, pageEnd: string,
                        e: Entry)
    requires itemPos <= |items| && prefixPos <= |prefixes|
  {
    Kept(items[itemPos..], prefixes[prefixPos..], e) || Less(pageEnd, e.key)
  }

  /** No name after the cut is smaller than a kept one. */
  ghost predicate SafeCut(items: seq<string>, prefixes: seq<string>, itemPos: nat, prefixPos: nat, pageEnd: string,
                          prefixLen: nat)
    requires itemPos <= |items| && prefixPos <= |prefixes|
  {
    forall k: Entry, e: Entry ::
      Kept(items[..itemPos], prefixes[..prefixPos], k) && Later(items, prefixes, itemPos, prefixPos, pageEnd, e)
        && e.ValidDir(prefixLen) ==>
        !Less(e.Name(), k.Name())
  }

  lemma PairIsSafe(k: Entry, e: Entry, last: string, next: string, prefixLen: nat)
    requires !Risky(last, next, prefixLen) && AtMost(k.key, last) && Less(last, e.key) && e.ValidDir(prefixLen)
    requires AtMost(next, e.key)
    ensures !Less(e.Name(), k.Name())
  {
    if Less(e.Name(), k.Name()) {
      SmallerName(k, e, last, prefixLen);
      assert e.key + "" == e.key;
      assert Hides(last, next, prefixLen, e.Name(), "");
    }
  }

  lemma CutIsSafe(items: seq<string>, prefixes: seq<string>, itemPos: nat, prefixPos: nat, last: string, next: string,
                  pageEnd: string, prefixLen: nat)
    requires itemPos <= |items| && prefixPos <= |prefixes| && UpTo(items, prefixes, itemPos, prefixPos, last)
    requires From(items, prefixes, itemPos, prefixPos, next) && AtMost(next, pageEnd)
    requires (itemPos + prefixPos > 0 ==> Less(last, next)) && !Risky(last, next, prefixLen)
    ensures SafeCut(items, prefixes, itemPos, prefixPos, pageEnd, prefixLen)
  {
    hide Risky;
    forall k: Entry, e: Entry | Kept(items[..itemPos], prefixes[..prefixPos], k)
                                && Later(items, prefixes, itemPos, prefixPos, pageEnd, e) && e.ValidDir(prefixLen)
      ensures !Less(e.Name(), k.Name())
    {
      LaterFrom(items, prefixes, itemPos, prefixPos, next, pageEnd, e);
      AtMostTransitive(last, next, e.key);
      PairIsSafe(k, e, last, next, prefixLen);
    }
  }

  lemma LaterFrom(items: seq<string>, prefixes: seq<string>, itemPos: nat, prefixPos: nat, next: string,
                  pageEnd: string, e: Entry)
    requires itemPos <= |items| && prefixPos <= |prefixes| && From(items, prefixes, itemPos, prefixPos, next)
    requires AtMost(next, pageEnd)
    requires Later(items, prefixes, itemPos, prefixPos, pageEnd, e)
    ensures AtMost(next, e.key)
  {
    if Less(pageEnd, e.key) { AtMostTransitive(next, pageEnd, e.key); }
  }

  lemma WholeIsSafe(items: seq<string>, prefixes: seq<string>, last: string, prefixLen: nat)
    requires UpTo(items, prefixes, |items|, |prefixes|, last) && !Risky(last, last, prefixLen)
    ensures SafeCut(items, prefixes, |items|, |prefixes|, last, prefixLen)
  {
    hide Risky;
    forall k: Entry, e: Entry | Kept(items[..|items|], prefixes[..|prefixes|], k)
                                && Later(items, prefixes, |items|, |prefixes|, last, e) && e.ValidDir(prefixLen)
      ensures !Less(e.Name(), k.Name())
    {
      PairIsSafe(k, e, last, last, prefixLen);
    }
  }

  /** Dropping the greatest kept key leaves keys before it. */
  lemma DropLast(items: seq<string>, prefixes: seq<string>, itemPos: nat, prefixPos: nat, name: string, isPrefix: nat)
    requires ValidPage(items, prefixes) && itemPos <= |items| && prefixPos <= |prefixes| && isPrefix <= 1
    requires UpTo(items, prefixes, itemPos, prefixPos, name) && From(items, prefixes, itemPos, prefixPos, name)
    requires IsMax(items, prefixes, itemPos, prefixPos, name, isPrefix) && itemPos + prefixPos > 0
    ensures var ip, pp := itemPos - (1 - isPrefix), prefixPos - isPrefix;
            ip >= 0 && pp >= 0 && From(items, prefixes, ip, pp, name) && Below(items, prefixes, ip, pp, name)
  {
  }

  // ----- Which cut -----

  /** The page can be cut between `last` and `next`; nothing kept has `last` empty. */
  ghost predicate Boundary(items: seq<string>, prefixes: seq<string>, itemPos: nat, prefixPos: nat, last: string,
                           next: string)
  {
    && itemPos <= |items| && prefixPos <= |prefixes| && UpTo(items, prefixes, itemPos, prefixPos, last)
    && From(items, prefixes, itemPos, prefixPos, next) && (itemPos + prefixPos > 0 ==> Less(last, next))
    && (if itemPos + prefixPos == 0 then last == "" else last in items[..itemPos] || last in prefixes[..prefixPos])
    && (next in items[itemPos..] || next in prefixes[prefixPos..])
  }

  /** Every cut that keeps at least `count` keys, and not all, may hide something. */
  ghost predicate AllRisky(items: seq<string>, prefixes: seq<string>, prefixLen: nat, count: nat)
  {
    forall i: nat, j: nat, last: string, next: string ::
      i + j >= count && Boundary(items, prefixes, i, j, last, next) ==> Risky(last, next, prefixLen)
  }

  ghost predicate HidesNothing(items: seq<string>, prefixes: seq<string>, itemPos: nat, prefixPos: nat, last: string,
                               prefixLen: nat)
  {
    exists next: string :: Boundary(items, prefixes, itemPos, prefixPos, last, next) && !Risky(last, next, prefixLen)
  }

  /** There is one cut for a number of kept keys. */
  lemma OneBoundary(items: seq<string>, prefixes: seq<string>, i: nat, j: nat, last: string, next: string,
                    i': nat, j': nat, last': string, next': string)
    requires ValidPage(items, prefixes) && i + j == i' + j'
    requires Boundary(items, prefixes, i, j, last, next) && Boundary(items, prefixes, i', j', last', next')
    ensures last == last' && next == next'
  {
    if i < i' {
      AcrossCut(prefixes[j'], items[i], last, next);
      AcrossCut(items[i], prefixes[j'], last', next');
      Asymmetric(items[i], prefixes[j']);
    } else if i' < i {
      AcrossCut(prefixes[j], items[i'], last', next');
      AcrossCut(items[i'], prefixes[j], last, next);
      Asymmetric(items[i'], prefixes[j]);
    }
    if last != last' { AtMostTransitive(last, last', last); Irreflexive(last); }
    if next != next' { AtMostTransitive(next, next', next); Irreflexive(next); }
  }

  lemma AcrossCut(a: string, b: string, last: string, next: string)
    requires AtMost(a, last) && Less(last, next) && AtMost(next, b)
    ensures Less(a, b)
  {
    AtMostTransitive(a, last, next);
    AtMostTransitive(a, next, b);
  }

  /** How a page was treated: it is complete, kept whole, cut, or its last directory has to be looked up. */
  datatype Treatment = Complete | Whole | Cut | Probe

  /**
   Where to cut a page. A page kept whole or cut is safe to hand out, and at least half of it
   is kept. It is kept whole unless a directory may hide behind its last key; it is cut as
   late as no directory hides, and only if there is no such place in its second half the
   directory is looked up.
   */
  method IntelligentListCut(items: seq<string>, prefixes: seq<string>, isTruncated: bool, prefixLen: nat)
    returns (itemPos: nat, prefixPos: nat, lastName: string, how: Treatment, ghost pageEnd: string)
    requires ValidPage(items, prefixes)
    ensures itemPos <= |items| && prefixPos <= |prefixes| && (how.Complete? <==> !isTruncated)
    ensures isTruncated ==> UpTo(items, prefixes, |items|, |prefixes|, pageEnd)
    ensures isTruncated && |items| + |prefixes| > 0 ==> pageEnd in items || pageEnd in prefixes
    ensures !how.Cut? ==> itemPos == |items| && prefixPos == |prefixes|
    ensures isTruncated && !how.Cut? ==> lastName == pageEnd
    ensures itemPos + prefixPos >= (|items| + |prefixes|) / 2
    ensures isTruncated ==> UpTo(items, prefixes, itemPos, prefixPos, lastName)
    ensures isTruncated ==> (how.Whole? <==> !Risky(pageEnd, pageEnd, prefixLen))
    ensures how.Whole? || how.Cut? ==> SafeCut(items, prefixes, itemPos, prefixPos, pageEnd, prefixLen)
    ensures how.Cut? ==>
              && HidesNothing(items, prefixes, itemPos, prefixPos, lastName, prefixLen)
              && AllRisky(items, prefixes, prefixLen, itemPos + prefixPos + 1)
    ensures how.Probe? ==> AllRisky(items, prefixes, prefixLen, (|items| + |prefixes|) / 2)
  {
    hide SafeCut, UpTo, From, Below, ValidPage, IsFirstLt, Risky, AllRisky, PrefixLarger, AtMost, Less, Boundary,
         HidesNothing, IsMax;
    itemPos, prefixPos, lastName, pageEnd := |items|, |prefixes|, "", "";
    if !isTruncated {
      return itemPos, prefixPos, lastName, Complete, pageEnd;
    }
    var count := itemPos + prefixPos;
    var isPrefix;
    lastName, isPrefix := MaxName(items, prefixes, itemPos, prefixPos);
    pageEnd := lastName;
    var lastLtPos := LocateLtSlash(lastName, prefixLen);
    TestIsExact(lastName, lastName, prefixLen, lastLtPos);
    NotPastItself(lastName, prefixLen, lastLtPos);
    if lastLtPos < 0 {
      WholeIsSafe(items, prefixes, lastName, prefixLen);
      return itemPos, prefixPos, lastName, Whole, pageEnd;
    }
    var name, ip: nat, pp: nat := lastName, itemPos, prefixPos;
    FromEnd(items, prefixes, name);
    NoCutAtEnd(items, prefixes, prefixLen);
    while ip + pp > count / 2
      invariant ip <= |items| && pp <= |prefixes| && isPrefix <= 1 && ip + pp >= count / 2 && AtMost(name, pageEnd)
      invariant UpTo(items, prefixes, ip, pp, name) && From(items, prefixes, ip, pp, name)
      invariant IsMax(items, prefixes, ip, pp, name, isPrefix)
      invariant AllRisky(items, prefixes, prefixLen, ip + pp)
      decreases ip + pp
    {
      DropLast(items, prefixes, ip, pp, name, isPrefix);
      pp, ip := pp - isPrefix, ip - (1 - isPrefix);
      var prev, wasPrefix;
      prev, wasPrefix := MaxName(items, prefixes, ip, pp);
      var ltPos := LocateLtSlash(prev, prefixLen);
      TestIsExact(prev, name, prefixLen, ltPos);
      NextBoundary(items, prefixes, ip, pp, prev, wasPrefix, name, isPrefix);
      if ltPos < 0 || PrefixLarger(prev, name, ltPos) {
        NothingHidden(items, prefixes, ip, pp, prev, name, prefixLen);
        BoundaryLess(items, prefixes, ip, pp, prev, name);
        CutIsSafe(items, prefixes, ip, pp, prev, name, pageEnd, prefixLen);
        return ip, pp, prev, Cut, pageEnd;
      }
      BoundaryLess(items, prefixes, ip, pp, prev, name);
      FromEarlier(items, prefixes, ip, pp, prev, name);
      AtMostTransitive(prev, name, pageEnd);
      OneMoreRisky(items, prefixes, ip, pp, prev, name, prefixLen);
      name, isPrefix := prev, wasPrefix;
    }
    return itemPos, prefixPos, lastName, Probe, pageEnd;
  }

  lemma NotPastItself(last: string, prefixLen: nat, ltPos: int)
    requires IsFirstLt(last, prefixLen, ltPos)
    ensures ltPos >= 0 ==> !PrefixLarger(last, last, ltPos)
  {
    if ltPos >= 0 { Irreflexive(last[..ltPos]); }
  }

  lemma NoCutAtEnd(items: seq<string>, prefixes: seq<string>, prefixLen: nat)
    ensures AllRisky(items, prefixes, prefixLen, |items| + |prefixes|)
  {
  }

  lemma NextBoundary(items: seq<string>, prefixes: seq<string>, itemPos: nat, prefixPos: nat, last: string,
                     lastIsPrefix: nat, next: string, isPrefix: nat)
    requires itemPos + 1 - isPrefix <= |items| && prefixPos + isPrefix <= |prefixes| && isPrefix <= 1
    requires IsMax(items, prefixes, itemPos + 1 - isPrefix, prefixPos + isPrefix, next, isPrefix)
    requires UpTo(items, prefixes, itemPos, prefixPos, last)
    requires IsMax(items, prefixes, itemPos, prefixPos, last, lastIsPrefix)
    requires From(items, prefixes, itemPos, prefixPos, next) && Below(items, prefixes, itemPos, prefixPos, next)
    ensures Boundary(items, prefixes, itemPos, prefixPos, last, next)
  {
  }

  lemma NothingHidden(items: seq<string>, prefixes: seq<string>, itemPos: nat, prefixPos: nat, last: string,
                      next: string, prefixLen: nat)
    requires Boundary(items, prefixes, itemPos, prefixPos, last, next) && !Risky(last, next, prefixLen)
    ensures HidesNothing(items, prefixes, itemPos, prefixPos, last, prefixLen)
  {
    hide Boundary, Risky;
  }

  lemma BoundaryLess(items: seq<string>, prefixes: seq<string>, itemPos: nat, prefixPos: nat, last: string,
                     next: string)
    requires Boundary(items, prefixes, itemPos, prefixPos, last, next)
    ensures itemPos + prefixPos > 0 ==> Less(last, next)
    ensures AtMost(last, next)
  {
  }

  lemma OneMoreRisky(items: seq<string>, prefixes: seq<string>, itemPos: nat, prefixPos: nat, last: string,
                     next: string, prefixLen: nat)
    requires ValidPage(items, prefixes) && AllRisky(items, prefixes, prefixLen, itemPos + prefixPos + 1)
    requires Boundary(items, prefixes, itemPos, prefixPos, last, next) && Risky(last, next, prefixLen)
    ensures AllRisky(items, prefixes, prefixLen, itemPos + prefixPos)
  {
    hide Boundary, Risky, ValidPage;
    forall i: nat, j: nat, last': string, next': string |
      i + j >= itemPos + prefixPos && Boundary(items, prefixes, i, j, last', next')
      ensures Risky(last', next', prefixLen)
    {
      if i + j == itemPos + prefixPos {
        OneBoundary(items, prefixes, itemPos, prefixPos, last, next, i, j, last', next');
      }
    }
  }

  lemma FromEnd(items: seq<string>, prefixes: seq<string>, key: string)
    ensures From(items, prefixes, |items|, |prefixes|, key)
  {
  }

  lemma FromEarlier(items: seq<string>, prefixes: seq<string>, itemPos: nat, prefixPos: nat, prev: string, name: string)
    requires itemPos <= |items| && prefixPos <= |prefixes| && From(items, prefixes, itemPos, prefixPos, name)
    requires AtMost(prev, name)
    ensures From(items, prefixes, itemPos, prefixPos, prev)
  {
    forall i: int | itemPos <= i < |items| ensures AtMost(prev, items[i]) { AtMostTransitive(prev, name, items[i]); }
    forall i: int | prefixPos <= i < |prefixes| ensures AtMost(prev, prefixes[i]) {
      AtMostTransitive(prev, name, prefixes[i]);
    }
  }
}
