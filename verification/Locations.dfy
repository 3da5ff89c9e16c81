/** Source locations: interned paths, their order, and duplicate-free sorted lists of them. */
module Locations {
  import opened Bytes
  import opened Wrappers

  const U32_MAX: nat := 0xffff_ffff

  /** What `get` answers for an index the interner never gave out. */
  const INVALID_PATH: string := "<invalid-dwarf-path>"

  function PathAt(paths: seq<string>, source: nat): (path: string)
    ensures source < |paths| ==> path == paths[source]
    ensures source >= |paths| ==> path == "<invalid-dwarf-path>"
  {
    if source < |paths| then paths[source] else INVALID_PATH
  }

  /** Source paths held once each, named by index. */
  class DwarfPathInterner {
    var indexes: map<string, nat>
    var values: seq<string>

    /** The two structures are each other's inverse, so a path has one index and an index one path. */
    ghost predicate Valid()
      reads this
    {
      && |values| <= U32_MAX + 1
      && (forall i :: 0 <= i < |values| ==> values[i] in indexes && indexes[values[i]] == i)
      && forall path :: path in indexes ==> indexes[path] < |values| && values[indexes[path]] == path
    }

    constructor ()
      ensures Valid() && values == []
    {
      indexes, values := map[], [];
    }

    /** `get` */
    function Get(index: nat): string
      reads this
    {
      PathAt(values, index)
    }

    /** `intern`: the path's index, new or old; `None` once 32 bits cannot name another. */
    method Intern(path: string) returns (index: Option<nat>)
      requires Valid()
      modifies this
      ensures Valid()
      ensures old(values) <= values
      ensures path in old(values) || |old(values)| <= 0xffff_ffff <==> index.Some?
      ensures index.Some? ==> index.value < |values| && Get(index.value) == path
      ensures values == if path in old(values) || index.None? then old(values) else old(values) + [path]
    {
      if path in indexes {
        return Some(indexes[path]);
      }
      var next := |values|;
      if next > U32_MAX {
        return None;
      }
      values := values + [path];
      indexes := indexes[path := next];
      return Some(next);
    }

    /** Equal paths mean equal indexes, which lets rows be compared without reading paths. */
    lemma IndexesArePaths(i: nat, j: nat)
      requires Valid() && i < |values| && j < |values|
      ensures Get(i) == Get(j) <==> i == j
    {
      assert values[i] in indexes && values[j] in indexes;
    }
  }

  /** What the loop below keeps: its byte count saturates, so the largest budget never runs out. */
  function SaturatingPrefix(lengths: seq<nat>, budget: nat): (retained: nat) {
    if budget >= U64_MAX then |lengths| else PrefixWithin(lengths, budget)
  }

  /** `source_path_prefix_within`: how many leading paths fit in a byte budget. */
  method SourcePathPrefixWithin(lengths: seq<nat>, budget: nat) returns (retained: nat)
    requires budget <= U64_MAX
    ensures retained == SaturatingPrefix(lengths, budget)
  {
    var used := 0;
    retained := 0;
    while retained < |lengths|
      invariant retained <= |lengths| && used <= budget
      invariant budget < U64_MAX ==>
                  PrefixWithin(lengths, budget) == retained + PrefixWithin(lengths[retained..], budget - used)
    {
      var length := lengths[retained];
      assert lengths[retained..][1..] == lengths[retained + 1..];
      used := if used + length > U64_MAX then U64_MAX else used + length;
      if used > budget {
        break;
      }
      retained := retained + 1;
    }
  }

  /** How many bytes a character takes in UTF-8. */
  function Utf8Width(c: char): nat {
    if c as int < 0x80 then 1 else if c as int < 0x800 then 2 else if c as int < 0x1_0000 then 3 else 4
  }

  /** A path's length as the byte budget counts it. */
  function Utf8Length(path: string): nat {
    if path == "" then 0 else Utf8Width(path[0]) + Utf8Length(path[1..])
  }

  function Sum(lengths: seq<nat>): nat {
    if lengths == [] then 0 else lengths[0] + Sum(lengths[1..])
  }

  lemma {:induction false} SumAppend(lengths: seq<nat>, length: nat)
    ensures Sum(lengths + [length]) == Sum(lengths) + length
  {
    if lengths == [] {
      assert lengths + [length] == [length];
    } else {
      assert (lengths + [length])[1..] == lengths[1..] + [length];
      SumAppend(lengths[1..], length);
    }
  }

  /** The longest prefix whose lengths add up to no more than the budget. */
  function PrefixWithin(lengths: seq<nat>, budget: nat): (retained: nat) {
    if lengths == [] || lengths[0] > budget then 0
    else 1 + PrefixWithin(lengths[1..], budget - lengths[0])
  }

  /** It fits, and one more path would not. */
  lemma {:induction false} PrefixWithinIsLongest(lengths: seq<nat>, budget: nat, k: nat)
    requires k <= |lengths|
    ensures Sum(lengths[..k]) <= budget <==> k <= PrefixWithin(lengths, budget)
    decreases k
  {
    if k == 0 {
    } else {
      assert lengths[..k][1..] == lengths[1..][..k - 1];
      if lengths[0] <= budget {
        PrefixWithinIsLongest(lengths[1..], budget - lengths[0], k - 1);
      }
    }
  }

  /** A source position as it is attached to a symbol. */
  datatype Location = Location(path: string, line: nat, column: Option<nat>)

  /** Code-point order, which is the byte order of UTF-8 paths. */
  predicate PathLe(a: string, b: string) {
    if a == "" then true
    else if b == "" then false
    else a[0] < b[0] || (a[0] == b[0] && PathLe(a[1..], b[1..]))
  }

  lemma {:induction false} PathLeTotal(a: string, b: string)
    ensures PathLe(a, b) || PathLe(b, a)
    ensures PathLe(a, b) && PathLe(b, a) ==> a == b
  {
    if a != "" && b != "" && a[0] == b[0] {
      PathLeTotal(a[1..], b[1..]);
      assert a == [a[0]] + a[1..] && b == [b[0]] + b[1..];
    }
  }

  lemma {:induction false} PathLeTransitive(a: string, b: string, c: string)
    requires PathLe(a, b) && PathLe(b, c)
    ensures PathLe(a, c)
  {
    if a != "" && a[0] == b[0] && b[0] == c[0] {
      PathLeTransitive(a[1..], b[1..], c[1..]);
    }
  }

  /** A missing column sorts before every column. */
  predicate ColumnLe(a: Option<nat>, b: Option<nat>) {
    a.None? || (b.Some? && a.value <= b.value)
  }

  /** Path, then line, then column. */
  predicate LocationLe(a: Location, b: Location) {
    if a.path != b.path then PathLe(a.path, b.path)
    else if a.line != b.line then a.line < b.line
    else ColumnLe(a.column, b.column)
  }

  predicate LocationLt(a: Location, b: Location) {
    LocationLe(a, b) && a != b
  }

  lemma LocationLeTotal(a: Location, b: Location)
    ensures LocationLe(a, b) || LocationLe(b, a)
    ensures LocationLe(a, b) && LocationLe(b, a) ==> a == b
  {
    PathLeTotal(a.path, b.path);
  }

  lemma LocationLeTransitive(a: Location, b: Location, c: Location)
    requires LocationLe(a, b) && LocationLe(b, c)
    ensures LocationLe(a, c)
  {
    if a.path != b.path && b.path != c.path {
      PathLeTransitive(a.path, b.path, c.path);
      PathLeTotal(a.path, b.path);
    }
  }

  /** Strictly sorted, so also free of duplicates. */
  ghost predicate StrictlySorted(list: seq<Location>) {
    forall i, j :: 0 <= i < j < |list| ==> LocationLt(list[i], list[j])
  }
}
