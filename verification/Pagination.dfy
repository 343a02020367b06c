/** Page tokens bound to one query and one key sequence. Keys are ordered as Go compares strings;
    the digest is an abstract injective function; page sizes and offsets are 64-bit. */
module Pagination {
  import opened Options

  // ---------------------------------------------------------------------------------------------
  // The order of keys
  // ---------------------------------------------------------------------------------------------

  predicate Lexicographic(a: string, b: string) {
    b != [] && (a == [] || a[0] < b[0] || (a[0] == b[0] && Lexicographic(a[1..], b[1..])))
  }

  lemma {:induction false} LexicographicIsTotal(a: string, b: string)
    ensures Lexicographic(a, b) <==> a != b && !Lexicographic(b, a)
  {
    if a != [] && b != [] {
      LexicographicIsTotal(a[1..], b[1..]);
      assert a == b <==> a[0] == b[0] && a[1..] == b[1..] by {
        assert a == [a[0]] + a[1..] && b == [b[0]] + b[1..];
      }
    }
  }

  lemma {:induction false} LexicographicIsTransitive(a: string, b: string, c: string)
    requires Lexicographic(a, b) && Lexicographic(b, c)
    ensures Lexicographic(a, c)
  {
    if a != [] && a[0] == b[0] == c[0] {
      LexicographicIsTransitive(a[1..], b[1..], c[1..]);
    }
  }

  type Order = (string, string) -> bool

  /** All that the pages need to know of the order of keys. */
  ghost predicate IsOrder(less: Order) {
    && (forall a, b :: less(a, b) <==> a != b && !less(b, a))
    && (forall a, b, c :: less(a, b) && less(b, c) ==> less(a, c))
  }

  /** Go's order on strings qualifies. */
  lemma LexicographicIsOrder()
    ensures IsOrder(Lexicographic)
  {
    forall a, b ensures Lexicographic(a, b) <==> a != b && !Lexicographic(b, a) {
      LexicographicIsTotal(a, b);
    }
    forall a, b, c | Lexicographic(a, b) && Lexicographic(b, c) ensures Lexicographic(a, c) {
      LexicographicIsTransitive(a, b, c);
    }
  }

  predicate IsSorted(less: Order, keys: seq<string>) {
    forall i, j :: 0 <= i < j < |keys| ==> !less(keys[j], keys[i])
  }

  /** The least index whose key is not below the wanted one. */
  predicate IsFirst(less: Order, keys: seq<string>, wanted: string, index: nat) {
    && index <= |keys|
    && (forall i :: 0 <= i < index ==> less(keys[i], wanted))
    && (index < |keys| ==> !less(keys[index], wanted))
  }

  function First(less: Order, keys: seq<string>, wanted: string): (index: nat)
    ensures IsFirst(less, keys, wanted, index)
  {
    if keys == [] || !less(keys[0], wanted) then 0 else 1 + First(less, keys[1..], wanted)
  }

  lemma FirstIsOnly(less: Order, keys: seq<string>, wanted: string, index: nat)
    requires IsFirst(less, keys, wanted, index)
    ensures index == First(less, keys, wanted)
  {}

  lemma NotLessIsTransitive(less: Order, a: string, b: string, c: string)
    requires IsOrder(less) && !less(b, a) && !less(c, b)
    ensures !less(c, a)
  {
    assert a == b || less(a, b);
  }

  /** sort.SearchStrings: binary search on sorted keys. */
  method SearchStrings(less: Order, keys: seq<string>, wanted: string) returns (index: nat)
    requires IsOrder(less)
    requires IsSorted(less, keys)
    ensures index == First(less, keys, wanted)
  {
    var high := |keys|;
    index := 0;
    while index < high
      invariant index <= high <= |keys|
      invariant forall i :: 0 <= i < index ==> less(keys[i], wanted)
      invariant forall i :: high <= i < |keys| ==> !less(keys[i], wanted)
    {
      var middle := (index + high) / 2;
      if less(keys[middle], wanted) {
        BelowStays(less, keys, wanted, middle);
        index := middle + 1;
      } else {
        AboveStays(less, keys, wanted, middle);
        high := middle;
      }
    }
    FirstIsOnly(less, keys, wanted, index);
  }

  lemma BelowStays(less: Order, keys: seq<string>, wanted: string, middle: nat)
    requires IsOrder(less)
    requires IsSorted(less, keys) && middle < |keys| && less(keys[middle], wanted)
    ensures forall i :: 0 <= i <= middle ==> less(keys[i], wanted)
  {
    forall i | 0 <= i < middle ensures less(keys[i], wanted) {
      assert keys[i] == keys[middle] || less(keys[i], keys[middle]);
    }
  }

  lemma AboveStays(less: Order, keys: seq<string>, wanted: string, middle: nat)
    requires IsOrder(less)
    requires IsSorted(less, keys) && middle < |keys| && !less(keys[middle], wanted)
    ensures forall i :: middle <= i < |keys| ==> !less(keys[i], wanted)
  {
    forall i | middle < i < |keys| ensures !less(keys[i], wanted) {
      NotLessIsTransitive(less, wanted, keys[middle], keys[i]);
    }
  }

  // ---------------------------------------------------------------------------------------------
  // Sorting
  // ---------------------------------------------------------------------------------------------

  function KeysOf<T>(items: seq<T>, key: T -> string): (keys: seq<string>)
    ensures |keys| == |items|
  {
    seq(|items|, i requires 0 <= i < |items| => key(items[i]))
  }

  predicate IsSortedBy<T>(less: Order, items: seq<T>, key: T -> string) {
    forall i, j :: 0 <= i < j < |items| ==> !less(key(items[j]), key(items[i]))
  }

  predicate IsDistinctBy<T>(items: seq<T>, key: T -> string) {
    forall i, j :: 0 <= i < j < |items| ==> key(items[i]) != key(items[j])
  }

  /** What a library sort may return: some ordering of the same items. */
  ghost predicate IsSortOf<T>(less: Order, sorted: seq<T>, items: seq<T>, key: T -> string) {
    multiset(sorted) == multiset(items) && IsSortedBy(less, sorted, key)
  }

  lemma IndexIn<T>(items: seq<T>, item: T) returns (i: nat)
    requires item in multiset(items)
    ensures i < |items| && items[i] == item
  {
    i :| 0 <= i < |items| && items[i] == item;
  }

  /** The greatest key comes last in every sort of the same items. */
  lemma LastIsUnique<T>(less: Order, a: seq<T>, b: seq<T>, key: T -> string)
    requires IsOrder(less)
    requires a != [] && b != [] && multiset(a) == multiset(b)
    requires IsSortedBy(less, a, key) && IsSortedBy(less, b, key) && IsDistinctBy(a, key)
    ensures a[|a| - 1] == b[|b| - 1]
  {
    var x, y := a[|a| - 1], b[|b| - 1];
    assert x in multiset(a) && y in multiset(b);
    var i := IndexIn(b, x);
    var j := IndexIn(a, y);
  }

  lemma DropSameLast<T>(a: seq<T>, b: seq<T>)
    requires a != [] && b != [] && multiset(a) == multiset(b) && a[|a| - 1] == b[|b| - 1]
    ensures multiset(a[..|a| - 1]) == multiset(b[..|b| - 1])
  {
    assert a == a[..|a| - 1] + [a[|a| - 1]] && b == b[..|b| - 1] + [b[|b| - 1]];
    assert multiset(a[..|a| - 1]) == multiset(a) - multiset{a[|a| - 1]};
    assert multiset(b[..|b| - 1]) == multiset(b) - multiset{b[|b| - 1]};
  }

  lemma SameLength<T>(a: seq<T>, b: seq<T>)
    requires multiset(a) == multiset(b)
    ensures |a| == |b|
  {
    assert |multiset(a)| == |a| && |multiset(b)| == |b|;
  }

  /** With distinct keys the order in which the items arrive does not matter. */
  lemma {:induction false} SortIsUnique<T>(less: Order, a: seq<T>, b: seq<T>, key: T -> string)
    requires IsOrder(less)
    requires multiset(a) == multiset(b) && IsSortedBy(less, a, key) && IsSortedBy(less, b, key) && IsDistinctBy(a, key)
    ensures a == b
  {
    SameLength(a, b);
    if a != [] {
      LastIsUnique(less, a, b, key);
      DropSameLast(a, b);
      SortIsUnique(less, a[..|a| - 1], b[..|a| - 1], key);
      assert a == a[..|a| - 1] + [a[|a| - 1]] == b[..|a| - 1] + [b[|a| - 1]] == b;
    }
  }

  function Inserted<T>(less: Order, sorted: seq<T>, item: T, key: T -> string): seq<T> {
    if sorted == [] || !less(key(item), key(sorted[|sorted| - 1])) then sorted + [item]
    else Inserted(less, sorted[..|sorted| - 1], item, key) + [sorted[|sorted| - 1]]
  }

  lemma {:induction false} InsertedIsPermutation<T>(less: Order, sorted: seq<T>, item: T, key: T -> string)
    ensures multiset(Inserted(less, sorted, item, key)) == multiset(sorted) + multiset{item}
  {
    if sorted != [] {
      var last := |sorted| - 1;
      assert sorted == sorted[..last] + [sorted[last]];
      InsertedIsPermutation(less, sorted[..last], item, key);
    }
  }

  predicate IsBound<T>(less: Order, items: seq<T>, bound: string, key: T -> string) {
    forall i :: 0 <= i < |items| ==> !less(bound, key(items[i]))
  }

  lemma {:induction false} InsertedIsSorted<T>(less: Order, sorted: seq<T>, item: T, key: T -> string)
    requires IsOrder(less)
    requires IsSortedBy(less, sorted, key)
    ensures IsSortedBy(less, Inserted(less, sorted, item, key), key)
    ensures forall bound :: IsBound(less, sorted, bound, key) && !less(bound, key(item)) ==>
      IsBound(less, Inserted(less, sorted, item, key), bound, key)
  {
    if sorted != [] {
      var last := |sorted| - 1;
      if less(key(item), key(sorted[last])) {
        InsertedIsSorted(less, sorted[..last], item, key);
        assert IsBound(less, sorted[..last], key(sorted[last]), key);
        assert forall bound :: IsBound(less, sorted, bound, key) ==> IsBound(less, sorted[..last], bound, key);
        assert IsBound(less, Inserted(less, sorted[..last], item, key), key(sorted[last]), key);
      } else {
        forall i | 0 <= i < last ensures !less(key(item), key(sorted[i])) {
          NotLessIsTransitive(less, key(sorted[i]), key(sorted[last]), key(item));
        }
      }
    }
  }

  /** The sort the pages are cut from; only what any sort promises is stated. */
  method Sort<T>(less: Order, items: seq<T>, key: T -> string) returns (sorted: seq<T>)
    requires IsOrder(less)
    ensures IsSortOf(less, sorted, items, key)
  {
    sorted := [];
    for index := 0 to |items|
      invariant IsSortOf(less, sorted, items[..index], key)
    {
      InsertedIsSorted(less, sorted, items[index], key);
      InsertedIsPermutation(less, sorted, items[index], key);
      sorted := Inserted(less, sorted, items[index], key);
      assert items[..index + 1] == items[..index] + [items[index]];
    }
    assert items[..|items|] == items;
  }

  // ---------------------------------------------------------------------------------------------
  // One page
  // ---------------------------------------------------------------------------------------------

  datatype Scope = Scope(service: string, parent: string, filter: string, orderBy: string)

  datatype Payload = Payload(version: int, scope: string, generation: string, after: string)

  /** A token as decoded: absent, a payload, or text that decodes to nothing. */
  datatype Token = NoToken | Encoded(payload: Payload) | Undecodable

  type Digest = seq<string> -> string

  ghost predicate IsDigest(digest: Digest) {
    forall a, b :: digest(a) == digest(b) ==> a == b
  }

  const DEFAULT_PAGE_SIZE := 100
  const MAX_INT := 0x7FFF_FFFF_FFFF_FFFF

  /** A sum of two nonnegative 64-bit integers. */
  function Sum(a: int, b: int): int {
    if a + b > MAX_INT then a + b - 0x1_0000_0000_0000_0000 else a + b
  }

  datatype Outcome<T> = Page(items: seq<T>, next: Token) | InvalidToken | Panic

  /** One collection as one query sees it. */
  datatype View<T> = View(less: Order, sorted: seq<T>, keys: seq<string>, scope: string, generation: string)

  ghost predicate IsView<T>(view: View<T>) {
    |view.sorted| == |view.keys| <= MAX_INT && IsOrder(view.less) && IsSorted(view.less, view.keys)
  }

  function ViewOf<T>(less: Order, sorted: seq<T>, key: T -> string, scope: Scope, digest: Digest): View<T> {
    View(less, sorted, KeysOf(sorted, key), digest([scope.service, scope.parent, scope.filter, scope.orderBy]),
         digest(KeysOf(sorted, key)))
  }

  predicate Accepts<T>(view: View<T>, token: Token) {
    || token.NoToken?
    || (token.Encoded? && token.payload.version == 1 && token.payload.scope == view.scope
        && token.payload.generation == view.generation && token.payload.after in view.keys)
  }

  function Start<T>(view: View<T>, token: Token): nat {
    if token.Encoded? then First(view.less, view.keys, token.payload.after) + 1 else 0
  }

  function SizeOf(pageSize: int): int { if pageSize <= 0 then DEFAULT_PAGE_SIZE else pageSize }

  /** The token that continues after the first end items. */
  function TokenAt<T>(view: View<T>, end: nat): Token
    requires end <= |view.keys|
  {
    if end == 0 || end == |view.keys| then NoToken
    else Encoded(Payload(1, view.scope, view.generation, view.keys[end - 1]))
  }

  lemma FirstOfMember(less: Order, keys: seq<string>, wanted: string)
    requires IsOrder(less)
    requires IsSorted(less, keys)
    ensures wanted in keys <==> First(less, keys, wanted) < |keys| && keys[First(less, keys, wanted)] == wanted
  {
    if wanted in keys {
      var i :| 0 <= i < |keys| && keys[i] == wanted;
      var first := First(less, keys, wanted);
    }
  }

  /** The page a request gets, in terms of the sorted collection. */
  ghost function PageOf<T>(view: View<T>, pageSize: int, token: Token): Outcome<T>
    requires IsView(view) && pageSize <= MAX_INT
  {
    if !Accepts(view, token) then InvalidToken
    else
      FirstIsWithin(view, token);
      var end := Sum(Start(view, token), SizeOf(pageSize));
      if end < 0 then Panic
      else
        var stop := if end > |view.sorted| then |view.sorted| else end;
        Page(view.sorted[Start(view, token)..stop], TokenAt(view, stop))
  }

  lemma FirstIsWithin<T>(view: View<T>, token: Token)
    requires IsView(view) && Accepts(view, token)
    ensures Start(view, token) <= |view.keys|
  {
    if token.Encoded? {
      FirstOfMember(view.less, view.keys, token.payload.after);
    }
  }

  /** The outcome is the page of some sort of the items. */
  ghost predicate Answers<T(!new)>(less: Order, items: seq<T>, pageSize: int, token: Token, scope: Scope,
                                   key: T -> string,
                                   digest: Digest, outcome: Outcome<T>)
    requires pageSize <= MAX_INT
  {
    exists sorted ::
      && IsSortOf(less, sorted, items, key) && IsView(ViewOf(less, sorted, key, scope, digest))
      && outcome == PageOf(ViewOf(less, sorted, key, scope, digest), pageSize, token)
  }

  method PageItems<T(!new)>(less: Order, items: seq<T>, pageSize: int, token: Token, scope: Scope, key: T -> string,
                            digest: Digest)
    returns (outcome: Outcome<T>)
    requires IsOrder(less) && |items| <= MAX_INT && pageSize <= MAX_INT
    ensures Answers(less, items, pageSize, token, scope, key, digest, outcome)
  {
    var cut := Sort(less, items, key);
    assert |multiset(cut)| == |multiset(items)|;
    var keys: seq<string> := [];
    for index := 0 to |cut|
      invariant keys == KeysOf(cut, key)[..index]
    {
      keys := keys + [key(cut[index])];
    }
    assert keys == KeysOf(cut, key);
    SortedKeys(less, cut, key);
    outcome := PageFrom(less, cut, keys, digest([scope.service, scope.parent, scope.filter, scope.orderBy]),
                        digest(keys),
                        pageSize, token);
    assert IsSortOf(less, cut, items, key) && IsView(ViewOf(less, cut, key, scope, digest));
  }

  /** The part of the request that follows the sort. */
  method PageFrom<T>(less: Order, sorted: seq<T>, keys: seq<string>, scopeDigest: string, generation: string,
                     pageSize: int, token: Token)
    returns (outcome: Outcome<T>)
    requires IsView(View(less, sorted, keys, scopeDigest, generation)) && pageSize <= MAX_INT
    ensures outcome == PageOf(View(less, sorted, keys, scopeDigest, generation), pageSize, token)
  {
    var start := 0;
    if token != NoToken {
      if token.Undecodable? || token.payload.version != 1 || token.payload.scope != scopeDigest
         || token.payload.generation != generation {
        return InvalidToken;
      }
      var index := SearchStrings(less, keys, token.payload.after);
      FirstOfMember(less, keys, token.payload.after);
      if index >= |keys| || keys[index] != token.payload.after {
        return InvalidToken;
      }
      start := index + 1;
    }
    assert start == Start(View(less, sorted, keys, scopeDigest, generation), token);
    var end := Sum(start, SizeOf(pageSize));
    if end > |sorted| {
      end := |sorted|;
    }
    if end < 0 {
      return Panic;
    }
    var page := sorted[start..end];
    if end == |sorted| {
      return Page(page, NoToken);
    }
    return Page(page, Encoded(Payload(1, scopeDigest, generation, keys[end - 1])));
  }

  lemma SortedKeys<T>(less: Order, sorted: seq<T>, key: T -> string)
    requires IsSortedBy(less, sorted, key)
    ensures IsSorted(less, KeysOf(sorted, key))
  {
    var keys := KeysOf(sorted, key);
    forall i, j | 0 <= i < j < |keys| ensures !less(keys[j], keys[i]) {
      assert keys[i] == key(sorted[i]) && keys[j] == key(sorted[j]);
    }
  }

  /** Beyond 64 bits the end of the page wraps around, and slicing panics. */
  lemma PanicIff<T>(view: View<T>, pageSize: int, token: Token)
    requires IsView(view) && pageSize <= MAX_INT
    ensures PageOf(view, pageSize, token) == Panic
      <==> Accepts(view, token) && Start(view, token) + SizeOf(pageSize) > MAX_INT
  {
    if Accepts(view, token) {
      FirstIsWithin(view, token);
    }
  }

  /** Without a size that is positive, the first page holds a hundred items, or all if there are fewer. */
  lemma DefaultPage<T>(view: View<T>, pageSize: int)
    requires IsView(view) && pageSize <= 0
    ensures PageOf(view, pageSize, NoToken)
         == if |view.sorted| <= 100 then Page(view.sorted, NoToken)
            else Page(view.sorted[..100], TokenAt(view, 100))
  {
    assert |view.sorted| <= 100 ==> view.sorted[0..|view.sorted|] == view.sorted;
  }

  /** Such a request: the token of a page of one item, with the largest page size. */
  lemma LargestPagePanics(view: View<int>)
    requires view == View(Lexicographic, [1, 2], ["a", "b"], "scope", "generation")
    ensures IsView(view) && PageOf(view, 1, NoToken) == Page([1], TokenAt(view, 1))
    ensures PageOf(view, MAX_INT, TokenAt(view, 1)) == Panic
  {
    LexicographicIsOrder();
    assert Lexicographic("a", "b");
    FirstIsOnly(view.less, view.keys, "a", 0);
  }

  /** Besides no token at all, exactly the tokens that name a key of this collection and query are accepted. */
  lemma AcceptedIff<T>(view: View<T>, token: Token)
    requires IsView(view)
    ensures Accepts(view, token) <==>
              token == NoToken
              || exists k :: 0 <= k < |view.keys|
                             && token == Encoded(Payload(1, view.scope, view.generation, view.keys[k]))
  {
    if token.Encoded? && token.payload.after in view.keys {
      var k :| 0 <= k < |view.keys| && view.keys[k] == token.payload.after;
      assert token == Encoded(token.payload);
    }
  }

  /** A token issued for one query and collection is accepted by another exactly when both have the
      same scope and the same key sequence. */
  lemma IssuedTokenIsAcceptedIff<T>(less: Order, digest: Digest, key: T -> string, issuer: seq<T>, issuerScope: Scope,
                                    asked: seq<T>, askedScope: Scope,
                                    end: nat)
    requires IsDigest(digest) && 0 < end < |issuer|
    ensures Accepts(ViewOf(less, asked, key, askedScope, digest),
                    TokenAt(ViewOf(less, issuer, key, issuerScope, digest), end))
       <==> issuerScope == askedScope && KeysOf(issuer, key) == KeysOf(asked, key)
  {
    var a := [issuerScope.service, issuerScope.parent, issuerScope.filter, issuerScope.orderBy];
    var b := [askedScope.service, askedScope.parent, askedScope.filter, askedScope.orderBy];
    assert a == b ==> a[0] == b[0] && a[1] == b[1] && a[2] == b[2] && a[3] == b[3];
  }

  // ---------------------------------------------------------------------------------------------
  // Following tokens
  // ---------------------------------------------------------------------------------------------

  function Least(a: int, b: int): int { if a <= b then a else b }

  /** The page a client gets for the token at some place of the collection. */
  lemma PageAt<T>(view: View<T>, pageSize: int, from: nat)
    requires IsView(view) && (from == 0 || from < |view.keys|) && SizeOf(pageSize) + |view.keys| <= MAX_INT
    ensures
      var start := Start(view, TokenAt(view, from));
      var stop := Least(start + SizeOf(pageSize), |view.keys|);
      start <= from && PageOf(view, pageSize, TokenAt(view, from))
        == Page(view.sorted[start..stop], TokenAt(view, stop))
  {
    if from > 0 {
      ResumesAtIff(view, from);
    }
  }

  /** What has been received, and the token to send next unless the last page came or a request failed. */
  datatype Progress<T> = Progress(items: seq<T>, next: Option<Token>, failed: bool)

  /** Sizes whose pages stay within 64 bits. */
  ghost predicate AreSizes<T>(view: View<T>, sizes: nat -> int) {
    forall k :: SizeOf(sizes(k)) + |view.keys| <= MAX_INT
  }

  ghost function NextRequest<T>(view: View<T>, pageSize: int, before: Progress<T>): Progress<T>
    requires IsView(view) && SizeOf(pageSize) + |view.keys| <= MAX_INT
  {
    if before.next.None? then before
    else
      match PageOf(view, pageSize, before.next.value)
      case Page(items, next) => Progress(before.items + items, if next.NoToken? then None else Some(next), false)
      case _ => Progress(before.items, None, true)
  }

  /** The first requests of a client that starts without a token and then sends each token it gets. */
  ghost function Follow<T>(view: View<T>, sizes: nat -> int, requests: nat): Progress<T>
    requires IsView(view) && AreSizes(view, sizes)
  {
    if requests == 0 then Progress([], Some(NoToken), false)
    else
      assert SizeOf(sizes(requests - 1)) + |view.keys| <= MAX_INT;
      NextRequest(view, sizes(requests - 1), Follow(view, sizes, requests - 1))
  }

  /** Every key but the last differs from the one before it. */
  predicate IsStrict(keys: seq<string>) {
    forall j :: 0 < j < |keys| - 1 ==> keys[j - 1] != keys[j]
  }

  /** A token resumes where its page ended exactly when the last key of that page is not repeated. */
  lemma ResumesAtIff<T>(view: View<T>, end: nat)
    requires IsView(view) && 0 < end < |view.keys|
    ensures Accepts(view, TokenAt(view, end)) && Start(view, TokenAt(view, end)) <= end
    ensures Start(view, TokenAt(view, end)) == end <==> end == 1 || view.keys[end - 2] != view.keys[end - 1]
    ensures end > 1 && view.keys[end - 2] == view.keys[end - 1] ==> Start(view, TokenAt(view, end)) < end
  {
    var wanted := view.keys[end - 1];
    var first := First(view.less, view.keys, wanted);
    FirstOfMember(view.less, view.keys, wanted);
    if end > 1 {
      assert end - 2 < first <==> view.less(view.keys[end - 2], wanted) by {
        if first <= end - 2 && first < |view.keys| {
          AboveStays(view.less, view.keys, wanted, first);
        }
      }
    }
  }

  /** One more request appends the page cut at the token's place. */
  lemma NextRequestAt<T>(view: View<T>, pageSize: int, before: Progress<T>, from: nat)
    requires IsView(view) && SizeOf(pageSize) + |view.keys| <= MAX_INT && (from == 0 || from < |view.keys|)
    requires before.next == Some(TokenAt(view, from))
    ensures
      var start := Start(view, TokenAt(view, from));
      var stop := Least(start + SizeOf(pageSize), |view.keys|);
      && start <= from
      && NextRequest(view, pageSize, before)
         == Progress(before.items + view.sorted[start..stop],
                     if stop == |view.keys| then None else Some(TokenAt(view, stop)), false)
  {
    PageAt(view, pageSize, from);
  }

  /** After some requests: all done, or at least one item for each request and a token for the rest. */
  ghost predicate IsUnderway<T>(view: View<T>, progress: Progress<T>, requests: nat, end: nat) {
    && |view.sorted| == |view.keys| && requests <= end && (end < |view.keys| || end == 0)
    && progress == Progress(view.sorted[..end], Some(TokenAt(view, end)), false)
  }

  lemma NextIsUnderway<T>(view: View<T>, pageSize: int, before: Progress<T>, requests: nat, from: nat)
    returns (end: nat)
    requires IsView(view) && IsStrict(view.keys) && SizeOf(pageSize) + |view.keys| <= MAX_INT
    requires IsUnderway(view, before, requests, from)
    ensures NextRequest(view, pageSize, before) == Progress(view.sorted, None, false)
         || IsUnderway(view, NextRequest(view, pageSize, before), requests + 1, end)
  {
    NextRequestAt(view, pageSize, before, from);
    if from > 0 {
      ResumesAtIff(view, from);
    }
    end := Least(from + SizeOf(pageSize), |view.keys|);
    assert view.sorted[..from] + view.sorted[from..end] == view.sorted[..end];
  }

  lemma {:induction false} FollowIsUnderway<T>(view: View<T>, sizes: nat -> int, requests: nat) returns (end: nat)
    requires IsView(view) && AreSizes(view, sizes) && IsStrict(view.keys)
    ensures Follow(view, sizes, requests) == Progress(view.sorted, None, false)
      || IsUnderway(view, Follow(view, sizes, requests), requests, end)
  {
    end := 0;
    if requests > 0 {
      var from := FollowIsUnderway(view, sizes, requests - 1);
      var size, before := sizes(requests - 1), Follow(view, sizes, requests - 1);
      if before.next.Some? {
        assert SizeOf(size) + |view.keys| <= MAX_INT;
        end := NextIsUnderway(view, size, before, requests - 1, from);
      }
    }
  }

  /** As many requests as there are items, and at least one, fetch the whole sorted collection. */
  lemma StrictKeysAreComplete<T>(view: View<T>, sizes: nat -> int, requests: nat)
    requires IsView(view) && AreSizes(view, sizes) && IsStrict(view.keys)
    requires requests > 0 && requests >= |view.keys|
    ensures Follow(view, sizes, requests) == Progress(view.sorted, None, false)
  {
    var end := FollowIsUnderway(view, sizes, requests);
  }

  lemma NextStalls<T>(view: View<T>, before: Progress<T>, j: nat, from: nat) returns (end: nat)
    requires IsView(view) && |view.keys| < MAX_INT && 0 < j < |view.keys| - 1 && view.keys[j - 1] == view.keys[j]
    requires from <= j + 1 && before.next == Some(TokenAt(view, from))
    ensures 0 < end <= j + 1 && NextRequest(view, 1, before).next == Some(TokenAt(view, end))
  {
    NextRequestAt(view, 1, before, from);
    if from > 0 {
      ResumesAtIff(view, from);
    }
    end := Start(view, TokenAt(view, from)) + 1;
  }

  /** With a repeated key before the last item, pages of one item never get past it. */
  lemma {:induction false} RepeatedKeyStalls<T>(view: View<T>, sizes: nat -> int, j: nat, requests: nat)
    returns (end: nat)
    requires IsView(view) && AreSizes(view, sizes) && |view.keys| < MAX_INT && forall k :: sizes(k) == 1
    requires 0 < j < |view.keys| - 1 && view.keys[j - 1] == view.keys[j]
    ensures end <= j + 1 && Follow(view, sizes, requests).next == Some(TokenAt(view, end))
  {
    end := 0;
    if requests > 0 {
      var from := RepeatedKeyStalls(view, sizes, j, requests - 1);
      assert sizes(requests - 1) == 1;
      end := NextStalls(view, Follow(view, sizes, requests - 1), j, from);
    }
  }

  ghost predicate IsComplete<T>(view: View<T>, sizes: nat -> int)
    requires IsView(view)
  {
    AreSizes(view, sizes) ==> Follow(view, sizes, |view.keys| + 1) == Progress(view.sorted, None, false)
  }

  lemma RepeatedKeyIsIncomplete<T>(view: View<T>, j: nat) returns (sizes: nat -> int)
    requires IsView(view) && |view.keys| < MAX_INT && 0 < j < |view.keys| - 1 && view.keys[j - 1] == view.keys[j]
    ensures !IsComplete(view, sizes)
  {
    sizes := _ => 1;
    assert AreSizes(view, sizes);
    var end := RepeatedKeyStalls(view, sizes, j, |view.keys| + 1);
  }

  /** Following tokens fetches the sorted collection for all page sizes exactly when no key before the
      last item repeats the key before it. */
  lemma CompleteIff<T>(view: View<T>)
    requires IsView(view) && |view.keys| < MAX_INT
    ensures IsStrict(view.keys) <==> forall sizes: nat -> int :: IsComplete(view, sizes)
  {
    if IsStrict(view.keys) {
      forall sizes: nat -> int | AreSizes(view, sizes) ensures IsComplete(view, sizes) {
        StrictKeysAreComplete(view, sizes, |view.keys| + 1);
      }
    } else {
      var j :| 0 < j < |view.keys| - 1 && view.keys[j - 1] == view.keys[j];
      var sizes := RepeatedKeyIsIncomplete(view, j);
    }
  }

  lemma DistinctKeysAreStrict<T>(sorted: seq<T>, key: T -> string)
    requires IsDistinctBy(sorted, key)
    ensures IsStrict(KeysOf(sorted, key))
  {
    var keys := KeysOf(sorted, key);
    forall j | 0 < j < |keys| - 1 ensures keys[j - 1] != keys[j] {
      assert keys[j - 1] == key(sorted[j - 1]) && keys[j] == key(sorted[j]);
    }
  }

  /** The promised case: items with distinct keys, presented in any order, sorted by any sort. */
  lemma DistinctKeysAreComplete<T>(less: Order, items: seq<T>, sorted: seq<T>, key: T -> string, scope: Scope,
                                   digest: Digest,
                                   sizes: nat -> int, again: seq<T>, resorted: seq<T>)
    requires IsOrder(less) && |sorted| <= MAX_INT && IsSortOf(less, sorted, items, key) && IsDistinctBy(sorted, key)
    requires multiset(again) == multiset(items) && IsSortOf(less, resorted, again, key)
    requires AreSizes(ViewOf(less, sorted, key, scope, digest), sizes)
    ensures resorted == sorted && IsView(ViewOf(less, sorted, key, scope, digest))
    ensures Follow(ViewOf(less, sorted, key, scope, digest), sizes, |sorted| + 1) == Progress(sorted, None, false)
  {
    SortIsUnique(less, sorted, resorted, key);
    SortedKeys(less, sorted, key);
    DistinctKeysAreStrict(sorted, key);
    StrictKeysAreComplete(ViewOf(less, sorted, key, scope, digest), sizes, |sorted| + 1);
  }
}
