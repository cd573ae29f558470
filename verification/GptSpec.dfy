/** GPT entry arrays as values, and what squeezing and hiding do to them (GptEdit.c, lines 497-605). */
module GptSpec {
  import opened Bytes

  type Guid = g: seq<byte> | |g| == 16 witness Zeros(16)

  /** EFI_PARTITION_ENTRY. */
  datatype Entry = Entry(typeGuid: Guid, uniqueGuid: Guid, startingLba: u64, endingLba: u64, attributes: u64,
                         name: seq<u16>)

  const UNUSED: Guid := Zeros(16)
  const ZERO_ENTRY: Entry := Entry(UNUSED, UNUSED, 0, 0, 0, NoName())

  function NoName(): seq<u16> {
    seq(36, _ => 0)
  }

  predicate Used(e: Entry) {
    e.typeGuid != UNUSED
  }

  /** The used entries, in order. */
  function UsedOf(s: seq<Entry>): seq<Entry> {
    if s == [] then [] else (if Used(s[0]) then [s[0]] else []) + UsedOf(s[1..])
  }

  /** The copy of the whole rest over the gap, and the clearing of entry i. */
  function Pulled(s: seq<Entry>, e: nat, i: nat): (r: seq<Entry>)
    requires e < i < |s|
    ensures |r| == |s|
  {
    (s[..e] + s[i..] + s[|s| - (i - e)..])[i := ZERO_ENTRY]
  }

  /** GptSqueze from any point of its loop. */
  function Squeeze(s: seq<Entry>, e: nat, i: nat): (r: seq<Entry>)
    requires e <= i
    ensures |r| == |s|
    decreases |s| - e, |s| - i
  {
    if i >= |s| then s
    else if !Used(s[i]) then Squeeze(s[i := ZERO_ENTRY], e, i + 1)
    else if e != i then Squeeze(Pulled(s, e, i), e + 1, e + 1)
    else Squeeze(s, e + 1, e + 1)
  }

  /** A used prefix and then zeros. */
  predicate Packed(s: seq<Entry>, n: nat) {
    n <= |s| && (forall k :: 0 <= k < n ==> Used(s[k])) && (forall k :: n <= k < |s| ==> s[k] == ZERO_ENTRY)
  }

  predicate AllFrom(r: seq<Entry>, s: seq<Entry>) {
    forall k :: 0 <= k < |r| ==> r[k] == ZERO_ENTRY || r[k] in s
  }

  /** The result is packed, and its entries are entries of the input. */
  lemma {:induction false} SqueezePacks(s: seq<Entry>, e: nat, i: nat) returns (n: nat)
    requires e <= i <= |s|
    requires forall k :: 0 <= k < e ==> Used(s[k])
    requires forall k :: e <= k < i ==> s[k] == ZERO_ENTRY
    ensures Packed(Squeeze(s, e, i), n) && e <= n
    ensures AllFrom(Squeeze(s, e, i), s)
    ensures (exists k :: i <= k < |s| && Used(s[k])) ==> n > 0
    decreases |s| - e, |s| - i
  {
    if i >= |s| {
      n := e;
    } else if !Used(s[i]) {
      var t := s[i := ZERO_ENTRY];
      n := SqueezePacks(t, e, i + 1);
      AllFromTrans(Squeeze(t, e, i + 1), t, s);
      if k :| i <= k < |s| && Used(s[k]) {
        assert Used(t[k]) && i + 1 <= k < |t|;
      }
    } else if e != i {
      var t := Pulled(s, e, i);
      assert t[e] == s[i];
      n := SqueezePacks(t, e + 1, e + 1);
      assert AllFrom(t, s) by {
        forall k | 0 <= k < |t| ensures t[k] == ZERO_ENTRY || t[k] in s {
          var u := s[..e] + s[i..] + s[|s| - (i - e)..];
          assert k != i ==> t[k] == u[k];
        }
      }
      AllFromTrans(Squeeze(t, e + 1, e + 1), t, s);
    } else {
      n := SqueezePacks(s, e + 1, e + 1);
    }
  }

  lemma AllFromTrans(r: seq<Entry>, t: seq<Entry>, s: seq<Entry>)
    requires AllFrom(r, t) && AllFrom(t, s)
    ensures AllFrom(r, s)
  {
    forall k | 0 <= k < |r| ensures r[k] == ZERO_ENTRY || r[k] in s {
      if r[k] != ZERO_ENTRY {
        var j :| 0 <= j < |t| && t[j] == r[k];
      }
    }
  }
}
