/** The required-field check is exact: it fails if and only if one of the first
    64 required fields never occurs in the input. */
module RequiredFields {
  import opened Bits
  import opened Wire
  import opened Descriptor
  import opened StructMemory
  import opened Decoding
  import opened Locality

  /** The tags in the input, by skipping from record to record without a descriptor. */
  function TagsOf(s: seq<byte>): set<nat>
    decreases |s|
  {
    if s == [] then {}
    else
      match DecodeVarint32(s)
      case Bad => {}
      case Got(key, rest) =>
        if key == 0 then {}
        else
          match SkipField(key % 8, rest)
          case Bad => {}
          case Got(_, rest') => {key / 8} + TagsOf(rest')
  }

  /** Every record of a known field has a wire type that its descriptor expects. */
  predicate WireTypesAgree(fields: seq<Field>, s: seq<byte>)
    decreases |s|
  {
    if s == [] then true
    else
      match DecodeVarint32(s)
      case Bad => true
      case Got(key, rest) =>
        var i := IndexOf(fields, key / 8);
        key == 0 ||
        ((i < |fields| ==> WireTypeAgrees(fields[i], key % 8)) &&
         match SkipField(key % 8, rest)
         case Bad => true
         case Got(_, rest') => WireTypesAgree(fields, rest'))
  }

  /** One of the first 64 required fields. */
  predicate Tracked(fields: seq<Field>, i: nat) {
    i < |fields| && fields[i].htype.Required? && |RequiredBelow(fields, i)| < 64
  }

  function RequiredBelow(fields: seq<Field>, i: nat): set<nat>
    requires i <= |fields|
  {
    set j: nat | j < i && fields[j].htype.Required?
  }

  lemma {:induction false} RequiredCounted(fields: seq<Field>, i: nat)
    requires i <= |fields|
    ensures RequiredBefore(fields, i) == |RequiredBelow(fields, i)|
  {
    if i == 0 {
      assert RequiredBelow(fields, 0) == {};
    } else {
      RequiredCounted(fields, i - 1);
      var before := RequiredBelow(fields, i - 1);
      assert RequiredBelow(fields, i) == if fields[i - 1].htype.Required? then before + {i - 1} else before;
    }
  }

  lemma {:induction false} RequiredBeforeMono(fields: seq<Field>, i: nat, j: nat)
    requires i < j <= |fields| && fields[i].htype.Required?
    ensures RequiredBefore(fields, i) < RequiredBefore(fields, j)
  {
    if i < j - 1 {
      RequiredBeforeMono(fields, i, j - 1);
    }
  }

  /** Distinct required entries have distinct indices. */
  lemma IndexInjective(fields: seq<Field>, i: nat, j: nat)
    requires i < |fields| && j < |fields| && fields[i].htype.Required? && fields[j].htype.Required?
    requires RequiredBefore(fields, i) == RequiredBefore(fields, j)
    ensures i == j
  {
    if i < j {
      RequiredBeforeMono(fields, i, j);
    } else if j < i {
      RequiredBeforeMono(fields, j, i);
    }
  }

  /** Outside empty tables a decoded record is the record that skipping would pass over. */
  lemma RecordRest(x: Struct, st: State, tag: nat, wireType: nat, s: seq<byte>)
    requires StateFor(x, st) && x.fields != [] && DecodeRecord(x, st, tag, wireType, s).Ok?
    requires IndexOf(x.fields, tag) < |x.fields| ==> WireTypeAgrees(x.fields[IndexOf(x.fields, tag)], wireType)
    ensures SkipField(wireType, s) == Got((), DecodeRecord(x, st, tag, wireType, s).rest)
  {
    hide DecodeCells, Placed, PlacedField, SkipField;
    var k := IndexOf(x.fields, tag);
    if k < |x.fields| {
      PlacedEntry(x, k, |st.mem|);
      DecodeCellsConsumes(x.fields[k], st.mem, Addr(x, k), Enter(x.fields, st, k).fixedSize, wireType, s);
    } else {
      assert SkipField(wireType, s).value == ();
    }
  }

  lemma RecordMarks(x: Struct, st: State, tag: nat, wireType: nat, s: seq<byte>, i: nat)
    requires StateFor(x, st) && Tracked(x.fields, i) && DecodeRecord(x, st, tag, wireType, s).Ok?
    ensures RequiredBefore(x.fields, i) in DecodeRecord(x, st, tag, wireType, s).value.seen
       <==> RequiredBefore(x.fields, i) in st.seen || tag == x.fields[i].tag
  {
    hide DecodeCells, WellFormed, PlacedField, Reaches, SkipField, DecodeVarint32, RequiredBefore;
    var k := IndexOf(x.fields, tag);
    RequiredCounted(x.fields, i);
    FieldIndex(x.fields, x.size, i);
    if k < |x.fields| && x.fields[k].htype.Required? && RequiredBefore(x.fields, k) == RequiredBefore(x.fields, i) {
      IndexInjective(x.fields, k, i);
    }
  }

  /** A tracked required field is marked exactly if its tag occurs. */
  lemma {:induction false} LoopMarks(x: Struct, st: State, s: seq<byte>, i: nat)
    requires StateFor(x, st) && Tracked(x.fields, i) && WireTypesAgree(x.fields, s)
    requires !DecodeLoop(x, st, s).Broken?
    ensures RequiredBefore(x.fields, i) in DecodeLoop(x, st, s).st.seen
       <==> RequiredBefore(x.fields, i) in st.seen || x.fields[i].tag in TagsOf(s)
    decreases |s|
  {
    hide DecodeRecord, DecodeVarint32, Placed, SkipField, WireTypeAgrees, RequiredBefore, IndexOf;
    if s != [] && DecodeVarint32(s).Got? && DecodeVarint32(s).value != 0 {
      var key, rest := DecodeVarint32(s).value, DecodeVarint32(s).rest;
      RecordRest(x, st, key / 8, key % 8, rest);
      RecordMarks(x, st, key / 8, key % 8, rest, i);
      var r := DecodeRecord(x, st, key / 8, key % 8, rest);
      LoopMarks(x, r.value, r.rest, i);
    }
  }

  /** The entry with required index r. */
  lemma {:induction false} RequiredIndex(fields: seq<Field>, n: nat, r: nat) returns (j: nat)
    requires n <= |fields| && r < RequiredBefore(fields, n)
    ensures j < n && fields[j].htype.Required? && RequiredBefore(fields, j) == r
  {
    if r < RequiredBefore(fields, n - 1) {
      j := RequiredIndex(fields, n - 1, r);
    } else {
      j := n - 1;
    }
  }

  /** Once the record loop and the fixed-count check pass, pb_decode_noinit succeeds if and only if
      every one of the first 64 required fields occurs in the input. */
  lemma RequiredCheckExact(x: Struct, m: Memory, s: seq<byte>)
    requires Placed(x, |m|) && WireTypesAgree(x.fields, s)
    requires !DecodeLoop(x, Start(m), s).Broken? && FixedComplete(x.fields, DecodeLoop(x, Start(m), s).st)
    ensures DecodeNoinit(x, m, s).Ok? <==> forall i: nat :: Tracked(x.fields, i) ==> x.fields[i].tag in TagsOf(s)
  {
    hide DecodeLoop, Placed, TagsOf, WireTypesAgree, FixedComplete, RequiredBefore;
    var seen := DecodeLoop(x, Start(m), s).st.seen;
    if AllRequiredSeen(x.fields, seen) {
      forall i: nat | Tracked(x.fields, i)
        ensures x.fields[i].tag in TagsOf(s)
      {
        LoopMarks(x, Start(m), s, i);
        RequiredCounted(x.fields, i);
        RequiredBeforeMono(x.fields, i, |x.fields|);
      }
    }
    if forall i: nat :: Tracked(x.fields, i) ==> x.fields[i].tag in TagsOf(s) {
      forall r | 0 <= r < RequiredBefore(x.fields, |x.fields|)
        ensures r < MAX_REQUIRED_FIELDS ==> r in seen
      {
        if r < MAX_REQUIRED_FIELDS {
          var j := RequiredIndex(x.fields, |x.fields|, r);
          RequiredCounted(x.fields, j);
          LoopMarks(x, Start(m), s, j);
        }
      }
    }
  }
}
