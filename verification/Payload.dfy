/**
The byte payloads hashed into colours and copy fingerprints, and why equal
payloads mean equal inputs. Fingerprints are 16-byte digests here, read as the
numbers their big-endian bytes spell, so numeric order is byte order.
*/
module Payload {
  import opened Bytes
  import opened CallGraph
  import opened Fingerprints
  import opened Tallies
  import opened Wrappers

  type Digest = n: nat | n < 0x1_0000_0000_0000_0000_0000_0000_0000_0000

  function DigestBytes(d: Digest): (bytes: seq<Byte>) {
    BigEndian(d, 16)
  }

  lemma DigestBytesInjective(d: Digest, e: Digest)
    requires DigestBytes(d) == DigestBytes(e)
    ensures d == e
  {
    assert Limit(12) == 256 * (256 * (256 * (256 * Limit(8))));
    assert Limit(16) == 256 * (256 * (256 * (256 * Limit(12))));
    BigEndianReadsBack(d, 16);
    BigEndianReadsBack(e, 16);
  }

  ghost predicate StrictlyAscending(list: seq<nat>) {
    forall i, j :: 0 <= i < j < |list| ==> list[i] < list[j]
  }

  /** The distinct values of a count map, in ascending order. */
  ghost function Keys(counts: multiset<Digest>): (keys: seq<Digest>)
    ensures StrictlyAscending(keys)
    ensures forall d :: d in keys <==> d in counts
  {
    var present: set<nat> := set d | d in counts;
    var limit := 0x1_0000_0000_0000_0000_0000_0000_0000_0000;
    AscendingToLists(present, limit);
    var list := AscendingTo(present, limit);
    assert forall i :: 0 <= i < |list| ==> list[i] in list;
    list
  }

  /** Two strictly ascending lists of the same values are the same list. */
  lemma {:induction false} AscendingUnique(a: seq<nat>, b: seq<nat>)
    requires StrictlyAscending(a) && StrictlyAscending(b)
    requires forall d :: d in a <==> d in b
    ensures a == b
  {
    assert b != [] ==> b[0] in b && b[0] in a;
    if a == [] {
    } else {
      assert a[0] in a && a[0] in b;
      assert b[0] in a;
      assert forall d :: d in a[1..] <==> d in a && d != a[0] by {
        assert a == [a[0]] + a[1..];
      }
      assert forall d :: d in b[1..] <==> d in b && d != b[0] by {
        assert b == [b[0]] + b[1..];
      }
      AscendingUnique(a[1..], b[1..]);
      assert a == [a[0]] + a[1..] && b == [b[0]] + b[1..];
    }
  }

  function EntryBytes(d: Digest, count: nat, counted: bool): (bytes: seq<Byte>) {
    DigestBytes(d) + if counted then U64(count) else []
  }

  /** The entries of a count map, in ascending colour order. */
  function Entries(keys: seq<Digest>, counts: multiset<Digest>, counted: bool): (list: seq<seq<Byte>>) {
    seq(|keys|, i requires 0 <= i < |keys| => EntryBytes(keys[i], counts[keys[i]], counted))
  }

  /** Whether some neighbour colour occurs more than once. */
  ghost predicate Repeats(counts: multiset<Digest>) {
    exists d :: d in counts && counts[d] > 1
  }

  /** A neighbour set: a plain colour list, or a marked list with counts when a colour repeats. */
  ghost function NeighbourBytes(counts: multiset<Digest>): seq<Byte> {
    MarkedBytes(COUNTED_NEIGHBOURS, counts, Repeats(counts))
  }

  /** Announces the counted form of a neighbour list. */
  const COUNTED_NEIGHBOURS: nat := U64_MAX

  ghost function MarkedBytes(marker: nat, counts: multiset<Digest>, counted: bool): seq<Byte> {
    if counted then U64(marker) + ColourList(counts, true) else ColourList(counts, false)
  }

  /** The distinct colours behind their number, each with its count when one repeats. */
  ghost function ColourList(counts: multiset<Digest>, counted: bool): seq<Byte> {
    U64(|Keys(counts)|) + Blocks(Entries(Keys(counts), counts, counted))
  }

  /** Neighbour lists a 64-bit machine can hold: a list length never equals the count marker. */
  ghost predicate Fits(counts: multiset<Digest>) {
    |Keys(counts)| < U64_MAX && forall d :: d in counts ==> counts[d] <= U64_MAX
  }

  lemma EntryInjective(d: Digest, count: nat, e: Digest, other: nat, counted: bool)
    requires count <= U64_MAX && other <= U64_MAX
    requires EntryBytes(d, count, counted) == EntryBytes(e, other, counted)
    ensures d == e && (counted ==> count == other)
  {
    Cancel(DigestBytes(d), if counted then U64(count) else [], DigestBytes(e), if counted then U64(other) else []);
    DigestBytesInjective(d, e);
    if counted {
      U64Injective(count, other);
    }
  }

  lemma EntriesInjective(a: seq<Digest>, m: multiset<Digest>, b: seq<Digest>, k: multiset<Digest>, counted: bool)
    requires forall d :: d in a ==> m[d] <= U64_MAX
    requires forall d :: d in b ==> k[d] <= U64_MAX
    requires Entries(a, m, counted) == Entries(b, k, counted)
    ensures a == b
    ensures counted ==> forall d :: d in a ==> m[d] == k[d]
  {
    assert |a| == |b|;
    forall i | 0 <= i < |a|
      ensures a[i] == b[i] && (counted ==> m[a[i]] == k[b[i]])
    {
      assert Entries(a, m, counted)[i] == Entries(b, k, counted)[i];
      EntryInjective(a[i], m[a[i]], b[i], k[b[i]], counted);
    }
  }

  lemma ColourListInjective(m: multiset<Digest>, rest: seq<Byte>, k: multiset<Digest>, other: seq<Byte>,
                            counted: bool)
    requires Fits(m) && Fits(k)
    requires ColourList(m, counted) + rest == ColourList(k, counted) + other
    ensures Keys(m) == Keys(k) && rest == other
    ensures counted ==> forall d :: d in Keys(m) ==> m[d] == k[d]
  {
    var a, b := Entries(Keys(m), m, counted), Entries(Keys(k), k, counted);
    CountInjective(|Keys(m)|, Blocks(a), rest, |Keys(k)|, Blocks(b), other);
    BlocksInjective(a, rest, b, other, if counted then 24 else 16);
    EntriesInjective(Keys(m), m, Keys(k), k, counted);
  }

  /** The marker is no list length, so a counted list is never taken for a plain one. */
  lemma MarkedIsNotPlain(marker: nat, list: seq<Byte>, rest: seq<Byte>, k: multiset<Digest>, other: seq<Byte>)
    requires marker == U64_MAX && Fits(k)
    ensures U64(marker) + list + rest != ColourList(k, false) + other
  {
    if U64(marker) + list + rest == ColourList(k, false) + other {
      CountInjective(marker, list, rest, |Keys(k)|, Blocks(Entries(Keys(k), k, false)), other);
      assert false;
    }
  }

  lemma MarkedInjective(marker: seq<Byte>, m: multiset<Digest>, rest: seq<Byte>, k: multiset<Digest>,
                        other: seq<Byte>)
    requires Fits(m) && Fits(k)
    requires marker + ColourList(m, true) + rest == marker + ColourList(k, true) + other
    ensures Keys(m) == Keys(k) && rest == other
    ensures forall d :: d in Keys(m) ==> m[d] == k[d]
  {
    var x, y := ColourList(m, true) + rest, ColourList(k, true) + other;
    assert marker + ColourList(m, true) + rest == marker + x;
    assert marker + ColourList(k, true) + other == marker + y;
    Cancel(marker, x, marker, y);
    ColourListInjective(m, rest, k, other, true);
  }

  lemma MarkedBytesInjective(marker: nat, m: multiset<Digest>, x: bool, rest: seq<Byte>,
                             k: multiset<Digest>, y: bool, other: seq<Byte>)
    requires marker == U64_MAX && Fits(m) && Fits(k)
    requires MarkedBytes(marker, m, x) + rest == MarkedBytes(marker, k, y) + other
    ensures x == y && Keys(m) == Keys(k) && rest == other
    ensures x ==> forall d :: d in Keys(m) ==> m[d] == k[d]
  {
    if x && y {
      MarkedInjective(U64(marker), m, rest, k, other);
    } else if x {
      MarkedIsNotPlain(marker, ColourList(m, true), rest, k, other);
    } else if y {
      MarkedIsNotPlain(marker, ColourList(k, true), other, m, rest);
    } else {
      ColourListInjective(m, rest, k, other, false);
    }
  }

  /** Both forms of a neighbour list read back, and neither can be taken for the other. */
  lemma NeighboursInjective(m: multiset<Digest>, rest: seq<Byte>, k: multiset<Digest>, other: seq<Byte>)
    requires Fits(m) && Fits(k)
    requires NeighbourBytes(m) + rest == NeighbourBytes(k) + other
    ensures m == k && rest == other
  {
    MarkedBytesInjective(COUNTED_NEIGHBOURS, m, Repeats(m), rest, k, Repeats(k), other);
  }

  function Ascii(text: string): (bytes: seq<Byte>) {
    seq(|text|, i requires 0 <= i < |text| => (text[i] as int) % 256)
  }

  /** The fixed spelling of an unresolved call. */
  function Spelling(reason: UnresolvedCall): string {
    match reason
    case IndirectTable => "indirect-table"
    case ExternalImport => "external-import"
    case NativeIndirect => "native-indirect"
    case MissingRelocation => "missing-relocation"
  }

  lemma SpellingInjective(a: UnresolvedCall, b: UnresolvedCall)
    requires Ascii(Spelling(a)) == Ascii(Spelling(b))
    ensures a == b
  {
    assert Ascii(Spelling(a))[0] == Ascii(Spelling(b))[0];
  }

  /** The reasons in the order their spellings sort. */
  const SPELLING_ORDER := [ExternalImport, IndirectTable, MissingRelocation, NativeIndirect]

  function Listed(reasons: set<UnresolvedCall>, k: nat): (list: seq<UnresolvedCall>)
    requires k <= 4
    ensures |list| <= k
    ensures forall r :: r in list <==> r in reasons && r in SPELLING_ORDER[..k]
  {
    if k == 0 then []
    else Listed(reasons, k - 1) + (if SPELLING_ORDER[k - 1] in reasons then [SPELLING_ORDER[k - 1]] else [])
  }

  function Spelled(list: seq<UnresolvedCall>): (labels: seq<seq<Byte>>)
    ensures |labels| == |list|
    ensures forall i :: 0 <= i < |list| ==> labels[i] == Ascii(Spelling(list[i])) && |labels[i]| <= 18
  {
    seq(|list|, i requires 0 <= i < |list| => Ascii(Spelling(list[i])))
  }

  function ReasonBytes(reasons: set<UnresolvedCall>): seq<Byte> {
    U64(|Listed(reasons, 4)|) + Fields(Spelled(Listed(reasons, 4)))
  }

  lemma ReasonsInjective(a: set<UnresolvedCall>, b: set<UnresolvedCall>)
    requires ReasonBytes(a) == ReasonBytes(b)
    ensures a == b
  {
    var x, y := Listed(a, 4), Listed(b, 4);
    Cancel(U64(|x|), Fields(Spelled(x)), U64(|y|), Fields(Spelled(y)));
    U64Injective(|x|, |y|);
    assert Fields(Spelled(x)) + [] == Fields(Spelled(y)) + [];
    FieldsInjective(Spelled(x), [], Spelled(y), []);
    forall i | 0 <= i < |x|
      ensures x[i] == y[i]
    {
      SpellingInjective(x[i], y[i]);
    }
    assert x == y;
    forall r: UnresolvedCall
      ensures r in SPELLING_ORDER[..4]
    {
      assert SPELLING_ORDER[..4] == [ExternalImport, IndirectTable, MissingRelocation, NativeIndirect];
      match r
      case IndirectTable =>
      case ExternalImport =>
      case NativeIndirect =>
      case MissingRelocation =>
    }
  }

  /** What one refinement round hashes for one symbol. */
  ghost function RoundPayload(own: Digest, callers: multiset<Digest>, callees: multiset<Digest>,
                              unresolved: set<UnresolvedCall>): seq<Byte> {
    Field(DigestBytes(own)) + (NeighbourBytes(callers) + (NeighbourBytes(callees) + ReasonBytes(unresolved)))
  }

  /** A round's payload determines the own colour, both count maps and the unresolved calls. */
  lemma RoundPayloadInjective(own: Digest, callers: multiset<Digest>, callees: multiset<Digest>,
                              unresolved: set<UnresolvedCall>,
                              own': Digest, callers': multiset<Digest>, callees': multiset<Digest>,
                              unresolved': set<UnresolvedCall>)
    requires Fits(callers) && Fits(callees) && Fits(callers') && Fits(callees')
    ensures RoundPayload(own, callers, callees, unresolved) == RoundPayload(own', callers', callees', unresolved')
        <==> own == own' && callers == callers' && callees == callees' && unresolved == unresolved'
  {
    var x, y := RoundPayload(own, callers, callees, unresolved), RoundPayload(own', callers', callees', unresolved');
    if x == y {
      var x3, y3 := ReasonBytes(unresolved), ReasonBytes(unresolved');
      var x2, y2 := NeighbourBytes(callees) + x3, NeighbourBytes(callees') + y3;
      var x1, y1 := NeighbourBytes(callers) + x2, NeighbourBytes(callers') + y2;
      FieldInjective(DigestBytes(own), x1, DigestBytes(own'), y1);
      DigestBytesInjective(own, own');
      NeighboursInjective(callers, x2, callers', y2);
      NeighboursInjective(callees, x3, callees', y3);
      ReasonsInjective(unresolved, unresolved');
    }
  }

  /** A digest for every colour in use, with no two colours colliding. */
  ghost predicate CollisionFree(colours: seq<Fingerprint>, digests: seq<Digest>,
                                colours': seq<Fingerprint>, digests': seq<Digest>)
  {
    && |colours| == |digests| && |colours'| == |digests'|
    && forall p, q :: 0 <= p < |colours| && 0 <= q < |colours'| ==>
         (colours[p] == colours'[q] <==> digests[p] == digests'[q])
  }

  ghost function RoundPayloadAt(g: Graph, p: nat, digests: seq<Digest>): seq<Byte>
    requires g.Valid() && p < |g.callers| == |digests|
  {
    RoundPayload(digests[p], Tally(g.callers[p], digests), Tally(g.callees[p], digests), g.unresolved[p])
  }

  /**
  The `Round` term stands for the hashed payload: under a collision-free hash the
  payloads of two symbols are equal exactly when their next colours are.
  */
  lemma RoundTermIsThePayload(g: Graph, p: nat, colours: seq<Fingerprint>, digests: seq<Digest>,
                              h: Graph, q: nat, colours': seq<Fingerprint>, digests': seq<Digest>)
    requires g.Valid() && p < |g.callers| == |colours| && h.Valid() && q < |h.callers| == |colours'|
    requires CollisionFree(colours, digests, colours', digests')
    requires Fits(Tally(g.callers[p], digests)) && Fits(Tally(g.callees[p], digests))
    requires Fits(Tally(h.callers[q], digests')) && Fits(Tally(h.callees[q], digests'))
    ensures RoundPayloadAt(g, p, digests) == RoundPayloadAt(h, q, digests')
        <==> g.NextColour(p, colours) == h.NextColour(q, colours')
  {
    RoundPayloadInjective(digests[p], Tally(g.callers[p], digests), Tally(g.callees[p], digests), g.unresolved[p],
                          digests'[q], Tally(h.callers[q], digests'), Tally(h.callees[q], digests'), h.unresolved[q]);
    SameTallies(g.callers[p], colours, digests, h.callers[q], colours', digests');
    SameTallies(g.callees[p], colours, digests, h.callees[q], colours', digests');
  }

  lemma SameTallies(S: set<nat>, colours: seq<Fingerprint>, digests: seq<Digest>,
                    R: set<nat>, colours': seq<Fingerprint>, digests': seq<Digest>)
    requires CollisionFree(colours, digests, colours', digests')
    requires Within(S, |colours|) && Within(R, |colours'|)
    ensures Tally(S, digests) == Tally(R, digests') <==> Tally(S, colours) == Tally(R, colours')
  {
    if Tally(S, digests) == Tally(R, digests') {
      TallyTransfer(S, digests, colours, R, digests', colours');
    }
    if Tally(S, colours) == Tally(R, colours') {
      TallyTransfer(S, colours, digests, R, colours', digests');
    }
  }

  function OptionalDigest(body: Option<Digest>): (bytes: seq<Byte>) {
    if body.Some? then DigestBytes(body.value) else []
  }

  function Flag(raised: bool): (bytes: seq<Byte>) {
    [if raised then 1 else 0]
  }

  /** What a copy's initial colour hashes. */
  function InitialPayload(content: Digest, rooted: bool, size: nat, body: Option<Digest>): seq<Byte> {
    Field(DigestBytes(content)) + (Field(Flag(rooted)) + (Field(U64(size)) + Field(OptionalDigest(body))))
  }

  lemma BodyInjective(body: Option<Digest>, body': Option<Digest>)
    requires Field(OptionalDigest(body)) == Field(OptionalDigest(body'))
    ensures body == body'
  {
    var x, y := OptionalDigest(body), OptionalDigest(body');
    assert Field(x) + [] == Field(x) && Field(y) + [] == Field(y);
    FieldInjective(x, [], y, []);
    if body.Some? {
      assert |y| == 16;
      DigestBytesInjective(body.value, body'.value);
    } else {
      assert |y| == 0;
    }
  }

  lemma InitialPayloadInjective(content: Digest, rooted: bool, size: nat, body: Option<Digest>,
                                content': Digest, rooted': bool, size': nat, body': Option<Digest>)
    requires size <= U64_MAX && size' <= U64_MAX
    ensures InitialPayload(content, rooted, size, body) == InitialPayload(content', rooted', size', body')
        <==> content == content' && rooted == rooted' && size == size' && body == body'
  {
    if InitialPayload(content, rooted, size, body) == InitialPayload(content', rooted', size', body') {
      var x3, y3 := Field(OptionalDigest(body)), Field(OptionalDigest(body'));
      var x2, y2 := Field(U64(size)) + x3, Field(U64(size')) + y3;
      var x1, y1 := Field(Flag(rooted)) + x2, Field(Flag(rooted')) + y2;
      FieldInjective(DigestBytes(content), x1, DigestBytes(content'), y1);
      FieldInjective(Flag(rooted), x2, Flag(rooted'), y2);
      FieldInjective(U64(size), x3, U64(size'), y3);
      DigestBytesInjective(content, content');
      U64Injective(size, size');
      BodyInjective(body, body');
    }
  }

  function OrderField(number: Option<nat>): seq<Byte> {
    if number.Some? then Field(U64(number.value)) else []
  }

  /** What a copy's own fingerprint hashes. */
  function CopyPayload(content: Digest, colour: Digest, number: Option<nat>): seq<Byte> {
    Field(DigestBytes(content)) + (Field(DigestBytes(colour)) + (Field(Flag(number.Some?)) + OrderField(number)))
  }

  lemma OrderInjective(number: Option<nat>, number': Option<nat>)
    requires number.Some? ==> number.value <= U64_MAX
    requires number'.Some? ==> number'.value <= U64_MAX
    requires number.Some? == number'.Some? && OrderField(number) == OrderField(number')
    ensures number == number'
  {
    if number.Some? {
      var x, y := U64(number.value), U64(number'.value);
      assert Field(x) + [] == Field(x) && Field(y) + [] == Field(y);
      FieldInjective(x, [], y, []);
      U64Injective(number.value, number'.value);
    }
  }

  lemma CopyPayloadInjective(content: Digest, colour: Digest, number: Option<nat>,
                             content': Digest, colour': Digest, number': Option<nat>)
    requires number.Some? ==> number.value <= U64_MAX
    requires number'.Some? ==> number'.value <= U64_MAX
    ensures CopyPayload(content, colour, number) == CopyPayload(content', colour', number')
        <==> content == content' && colour == colour' && number == number'
  {
    if CopyPayload(content, colour, number) == CopyPayload(content', colour', number') {
      var x3, y3 := OrderField(number), OrderField(number');
      var x2, y2 := Field(Flag(number.Some?)) + x3, Field(Flag(number'.Some?)) + y3;
      var x1, y1 := Field(DigestBytes(colour)) + x2, Field(DigestBytes(colour')) + y2;
      FieldInjective(DigestBytes(content), x1, DigestBytes(content'), y1);
      FieldInjective(DigestBytes(colour), x2, DigestBytes(colour'), y2);
      FieldInjective(Flag(number.Some?), x3, Flag(number'.Some?), y3);
      DigestBytesInjective(content, content');
      DigestBytesInjective(colour, colour');
      OrderInjective(number, number');
    }
  }

  lemma EntriesAppend(keys: seq<Digest>, d: Digest, counts: multiset<Digest>, counted: bool)
    ensures Blocks(Entries(keys + [d], counts, counted))
         == Blocks(Entries(keys, counts, counted)) + EntryBytes(d, counts[d], counted)
  {
    BlocksAppend(Entries(keys, counts, counted), EntryBytes(d, counts[d], counted));
    assert Entries(keys + [d], counts, counted)
        == Entries(keys, counts, counted) + [EntryBytes(d, counts[d], counted)];
  }

  /** Count neighbours by colour, one at a time and in ascending position order. */
  method CountColours(neighbours: set<nat>, digests: seq<Digest>) returns (counts: multiset<Digest>)
    ensures counts == Tally(neighbours, digests)
  {
    counts := multiset{};
    for other := 0 to |digests|
      invariant counts == TallyTo(neighbours, digests, other)
    {
      if other in neighbours {
        counts := counts[digests[other] := counts[digests[other]] + 1];
      }
    }
  }

  /** Ascending iteration over `present` has yielded `keys` and still has `todo` to go. */
  ghost predicate Yielded(present: set<Digest>, keys: seq<Digest>, todo: set<Digest>) {
    && todo <= present
    && |keys| + |todo| == |present|
    && StrictlyAscending(keys)
    && (forall d :: d in keys <==> d in present && d !in todo)
    && forall d, e :: d in keys && e in todo ==> d < e
  }

  lemma YieldOne(present: set<Digest>, keys: seq<Digest>, todo: set<Digest>, d: Digest)
    requires Yielded(present, keys, todo) && d in todo && forall e :: e in todo ==> d <= e
    ensures Yielded(present, keys + [d], todo - {d})
  {
    assert forall i :: 0 <= i < |keys| ==> keys[i] in keys;
    assert forall e :: e in keys + [d] <==> e in keys || e == d;
  }

  /** The entry ascending iteration yields next. */
  method TakeLeast(todo: set<Digest>) returns (d: Digest)
    requires todo != {}
    ensures d in todo && forall e :: e in todo ==> d <= e
  {
    ghost var least := Least(todo);
    d :| d in todo && forall e :: e in todo ==> d <= e;
  }

  lemma AllYielded(counts: multiset<Digest>, present: set<Digest>, keys: seq<Digest>)
    requires forall d :: d in present <==> d in counts
    requires Yielded(present, keys, {})
    ensures keys == Keys(counts)
  {
    AscendingUnique(keys, Keys(counts));
  }

  function Present(counts: multiset<Digest>): set<Digest> {
    set d | d in counts
  }

  /** Walk a count map in ascending colour order, appending each entry. */
  method AppendEntries(counts: multiset<Digest>, counted: bool) returns (length: nat, entries: seq<Byte>)
    ensures length == |Keys(counts)| && entries == Blocks(Entries(Keys(counts), counts, counted))
  {
    var todo := Present(counts);
    ghost var present, keys: seq<Digest> := todo, [];
    length, entries := |todo|, [];
    while todo != {}
      invariant Yielded(present, keys, todo)
      invariant entries == Blocks(Entries(keys, counts, counted))
      decreases todo
    {
      var d := TakeLeast(todo);
      entries := entries + EntryBytes(d, counts[d], counted);
      EntriesAppend(keys, d, counts, counted);
      YieldOne(present, keys, todo, d);
      keys := keys + [d];
      todo := todo - {d};
    }
    AllYielded(counts, present, keys);
  }

  /** Append one neighbour list, in ascending colour order. */
  method AppendNeighbours(payload: seq<Byte>, neighbours: set<nat>, digests: seq<Digest>) returns (out: seq<Byte>)
    ensures out == payload + NeighbourBytes(Tally(neighbours, digests))
  {
    var counts := CountColours(neighbours, digests);
    var counted := exists d :: d in counts && counts[d] > 1;
    var length, entries := AppendEntries(counts, counted);
    out := payload;
    if counted {
      out := out + U64(COUNTED_NEIGHBOURS);
    }
    out := out + (U64(length) + entries);
  }

  method AppendReasons(payload: seq<Byte>, reasons: set<UnresolvedCall>) returns (out: seq<Byte>)
    ensures out == payload + ReasonBytes(reasons)
  {
    var list := Listed(reasons, 4);
    ghost var labels := Spelled(list);
    out := payload + U64(|list|);
    for i := 0 to |list|
      invariant out + Fields(labels[i..]) == payload + ReasonBytes(reasons)
    {
      assert Fields(labels[i..]) == Field(labels[i]) + Fields(labels[i + 1..]) by {
        assert labels[i..][1..] == labels[i + 1..];
      }
      out := out + Field(Ascii(Spelling(list[i])));
    }
    assert Fields(labels[|list|..]) == [];
  }

  /** `next_colour`'s payload, built by appending to one buffer. */
  method NextColourPayload(g: Graph, position: nat, digests: seq<Digest>) returns (payload: seq<Byte>)
    requires g.Valid() && position < |g.callers| == |digests|
    ensures payload == RoundPayloadAt(g, position, digests)
  {
    ghost var own := Field(DigestBytes(digests[position]));
    ghost var callers := NeighbourBytes(Tally(g.callers[position], digests));
    ghost var callees := NeighbourBytes(Tally(g.callees[position], digests));
    ghost var reasons := ReasonBytes(g.unresolved[position]);
    payload := Field(DigestBytes(digests[position]));
    payload := AppendNeighbours(payload, g.callers[position], digests);
    payload := AppendNeighbours(payload, g.callees[position], digests);
    payload := AppendReasons(payload, g.unresolved[position]);
    Regroup(own, callers, callees, reasons);
  }
}
