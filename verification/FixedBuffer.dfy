/** NUL-padded text fields, and the trimming of driver strings. */
module FixedBuffer {
  import opened Basics

  function Zeros(n: nat): (z: seq<int>)
    ensures |z| == n && forall i :: 0 <= i < n ==> z[i] == 0
  {
    seq(n, _ => 0)
  }

  /** The contents of an n-unit field after `to_buffer`, `CopyTo` or V1's name copy. */
  function Padded(text: seq<int>, n: nat): (r: seq<int>)
    ensures |r| == n
  {
    text[..Min(|text|, n)] + Zeros(n - Min(|text|, n))
  }

  /** What `GetName`, `GetPersistentId` and `TruncateNulls` read back: everything before the first NUL. */
  function Text(field: seq<int>): (r: seq<int>)
    ensures r <= field && 0 !in r
    ensures |r| < |field| ==> field[|r|] == 0
  {
    if |field| == 0 || field[0] == 0 then [] else [field[0]] + Text(field[1..])
  }

  method ToBuffer(dest: array<int>, text: seq<int>)
    modifies dest
    ensures dest[..] == Padded(text, dest.Length)
  {
    for i := 0 to dest.Length
      invariant forall j :: 0 <= j < i ==> dest[j] == 0
    {
      dest[i] := 0;
    }
    var n := Min(|text|, dest.Length);
    for i := 0 to n
      invariant forall j :: 0 <= j < i ==> dest[j] == text[j]
      invariant forall j :: i <= j < dest.Length ==> dest[j] == 0
    {
      dest[i] := text[i];
    }
  }

  /** Reading is determined by the first NUL: two fields that agree up to it read alike. */
  lemma TextUnique(field: seq<int>, r: seq<int>)
    requires r <= field && 0 !in r && (|r| < |field| ==> field[|r|] == 0)
    ensures Text(field) == r
  {
  }

  /** Copy then read gives the first n units, cut at the first NUL. */
  lemma CopyThenRead(text: seq<int>, n: nat)
    ensures Text(Padded(text, n)) == Text(text[..Min(|text|, n)])
  {
    var kept := text[..Min(|text|, n)];
    var r := Text(kept);
    TextUnique(Padded(text, n), r);
  }

  /** The field round-trips exactly the NUL-free texts that fit. */
  lemma FieldRoundTrip(text: seq<int>, n: nat)
    ensures Text(Padded(text, n)) == text <==> |text| <= n && 0 !in text
  {
    CopyThenRead(text, n);
  }

  /** A field holds a terminating NUL exactly when the text is shorter or brings its own. */
  lemma FieldTerminated(text: seq<int>, n: nat)
    ensures 0 in Padded(text, n) <==> |text| < n || 0 in text[..n]
  {
    var kept := text[..Min(|text|, n)];
    if |text| < n {
      assert Padded(text, n)[|text|] == 0;
    } else {
    }
  }

  // ---- Driver strings ------------------------------------------------------------------------

  /** `char` is signed, so bytes of 128 and more are below 32 and count as junk. */
  predicate Printing(c: int) {
    c > 32
  }

  /** What WTInfoA left in the 1024-byte buffer, and the byte count it reported. */
  datatype Answer = Answer(buffer: seq<int>, count: nat)

  /** The buffer resized to that count. */
  function Resized(a: Answer): (r: seq<int>)
    ensures |r| == a.count
  {
    if a.count <= |a.buffer| then a.buffer[..a.count] else a.buffer + Zeros(a.count - |a.buffer|)
  }

  predicate AllJunk(s: seq<int>) {
    forall i :: 0 <= i < |s| ==> !Printing(s[i])
  }

  function TrimEnd(s: seq<int>): (r: seq<int>)
    ensures r <= s && (forall i :: |r| <= i < |s| ==> !Printing(s[i])) && (|r| == 0 || Printing(r[|r| - 1]))
    decreases |s|
  {
    if |s| == 0 || Printing(s[|s| - 1]) then s else TrimEnd(s[..|s| - 1])
  }

  /** The string the adapter goes on with: trimmed, unless there is nothing but junk. */
  function InfoString(a: Answer): (r: seq<int>) {
    if AllJunk(Resized(a)) then Resized(a) else TrimEnd(Resized(a))
  }

  lemma {:induction false} TrimEndUnique(s: seq<int>, n: nat)
    requires n <= |s| && (forall i :: n <= i < |s| ==> !Printing(s[i])) && (n == 0 || Printing(s[n - 1]))
    ensures TrimEnd(s) == s[..n]
    decreases |s|
  {
    if n < |s| {
      TrimEndUnique(s[..|s| - 1], n);
      assert s[..|s| - 1][..n] == s[..n];
    } else {
      assert s[..n] == s;
    }
  }

  /**
    What the adapter makes of an answer, in terms of the bytes themselves: the first bytes the driver
    wrote, up to the last one above 32 within the count, or all of them if there is none.
   */
  ghost predicate Trims(a: Answer, r: seq<int>) {
    && |r| <= a.count
    && (forall i :: 0 <= i < |r| ==> r[i] == if i < |a.buffer| then a.buffer[i] else 0)
    && if exists i :: 0 <= i < a.count && i < |a.buffer| && a.buffer[i] > 32
       then |r| > 0 && r[|r| - 1] > 32 && forall i :: |r| <= i < a.count && i < |a.buffer| ==> a.buffer[i] <= 32
       else |r| == a.count
  }

  lemma JunkBytes(a: Answer)
    ensures AllJunk(Resized(a)) <==> !exists i :: 0 <= i < a.count && i < |a.buffer| && a.buffer[i] > 32
  {
    var raw := Resized(a);
    if !AllJunk(raw) {
      var i :| 0 <= i < |raw| && Printing(raw[i]);
      assert i < |a.buffer| && a.buffer[i] > 32;
    }
    forall i | 0 <= i < a.count && i < |a.buffer| && a.buffer[i] > 32 ensures Printing(raw[i]) {
      assert raw[i] == a.buffer[i];
    }
  }

  lemma InfoStringTrims(a: Answer)
    ensures Trims(a, InfoString(a))
  {
    var raw, r := Resized(a), InfoString(a);
    JunkBytes(a);
    assert forall i :: 0 <= i < a.count ==> raw[i] == if i < |a.buffer| then a.buffer[i] else 0;
    if !AllJunk(raw) {
      assert |r| > 0 by {
        var i :| 0 <= i < |raw| && Printing(raw[i]);
      }
      forall i | |r| <= i < a.count && i < |a.buffer| ensures a.buffer[i] <= 32 {
        assert !Printing(raw[i]);
      }
    }
  }

  lemma TrimsOnce(a: Answer, r: seq<int>, q: seq<int>)
    requires Trims(a, r) && Trims(a, q)
    ensures |r| <= |q|
  {
  }

  /** The trimming is that and nothing else. */
  lemma TrimsIff(a: Answer, r: seq<int>)
    ensures Trims(a, r) <==> r == InfoString(a)
  {
    InfoStringTrims(a);
    if Trims(a, r) {
      TrimsOnce(a, r, InfoString(a));
      TrimsOnce(a, InfoString(a), r);
    }
  }

  /**
    Trims trailing junk.  A string without any printing character is returned as it is, so the
    promise "no trailing junk" holds exactly when the string is empty or has a printing character.
   */
  method GetInfoString(a: Answer) returns (r: seq<int>)
    ensures r == InfoString(a) && Trims(a, r)
    ensures (|r| == 0 || Printing(r[|r| - 1])) <==> (a.count == 0 || !AllJunk(Resized(a)))
  {
    var raw := Resized(a);
    var end := |raw|;
    while end > 0 && !Printing(raw[end - 1])
      invariant 0 <= end <= |raw|
      invariant forall i :: end <= i < |raw| ==> !Printing(raw[i])
    {
      end := end - 1;
    }
    TrimEndUnique(raw, end);
    TrimsIff(a, InfoString(a));
    r := if end > 0 then raw[..end] else raw;
    assert end > 0 ==> Printing(raw[end - 1]);
  }

  /** Nothing is left exactly when the driver reported no bytes. */
  lemma EmptyIff(a: Answer)
    ensures |InfoString(a)| == 0 <==> a.count == 0
  {
  }

  // ---- Persistent device identity ------------------------------------------------------------

  const ID_LENGTH: nat := 256

  function Ascii(s: string): (r: seq<int>)
    ensures |r| == |s|
  {
    seq(|s|, i requires 0 <= i < |s| => s[i] as int)
  }

  /** `persistentId` as ConnectToTablet fills it from the PnP ID or, failing that, the interface ID. */
  function PersistentIdField(pnpId: seq<int>, interfaceId: seq<int>): (r: seq<int>)
    ensures |r| == ID_LENGTH
  {
    if |pnpId| > 0 then Padded(Ascii("wintab-pnpid:") + pnpId, ID_LENGTH)
    else if |interfaceId| > 0 then Padded(Ascii("wintab-id:") + interfaceId, ID_LENGTH)
    else Zeros(ID_LENGTH)
  }

  const PNP_TAG: seq<int> := [119, 105, 110, 116, 97, 98, 45, 112, 110, 112, 105, 100, 58]   // "wintab-pnpid:"
  const INTERFACE_TAG: seq<int> := [119, 105, 110, 116, 97, 98, 45, 105, 100, 58]            // "wintab-id:"

  lemma PnpTagBytes()
    ensures Ascii("wintab-pnpid:") == PNP_TAG
  {
  }

  lemma InterfaceTagBytes()
    ensures Ascii("wintab-id:") == INTERFACE_TAG
  {
  }

  /** What is read back of a persistent ID: a tag and the first bytes of the string behind it. */
  function ExpectedId(pnpId: seq<int>, interfaceId: seq<int>): (r: seq<int>) {
    if |pnpId| > 0
    then PNP_TAG + Text(pnpId[..Min(|pnpId|, 243)])
    else if |interfaceId| > 0
    then INTERFACE_TAG + Text(interfaceId[..Min(|interfaceId|, 246)])
    else []
  }

  lemma IdReadsBack(pnpId: seq<int>, interfaceId: seq<int>)
    ensures Text(PersistentIdField(pnpId, interfaceId)) == ExpectedId(pnpId, interfaceId)
  {
    if |pnpId| > 0 {
      PnpTagBytes();
      TaggedRead(PNP_TAG, pnpId);
    } else if |interfaceId| > 0 {
      InterfaceTagBytes();
      TaggedRead(INTERFACE_TAG, interfaceId);
    } else {
      TextUnique(Zeros(ID_LENGTH), []);
    }
  }

  lemma TextAfter(tag: seq<int>, rest: seq<int>)
    requires 0 !in tag
    ensures Text(tag + rest) == tag + Text(rest)
  {
    TextUnique(tag + rest, tag + Text(rest));
  }

  /** A tagged ID reads as the tag and as much of the ID as fits, cut at its first NUL. */
  lemma TaggedRead(tag: seq<int>, id: seq<int>)
    requires 0 !in tag && |tag| <= ID_LENGTH
    ensures Text(Padded(tag + id, ID_LENGTH)) == tag + Text(id[..Min(|id|, ID_LENGTH - |tag|)])
  {
    var kept := id[..Min(|id|, ID_LENGTH - |tag|)];
    CopyThenRead(tag + id, ID_LENGTH);
    assert (tag + id)[..Min(|tag + id|, ID_LENGTH)] == tag + kept;
    TextAfter(tag, kept);
  }

  /** PnP IDs read alike exactly when their first 243 bytes do, whatever the interface IDs are. */
  lemma PnpIdsStayApart(p: seq<int>, q: seq<int>, i: seq<int>, j: seq<int>)
    requires |p| > 0 && |q| > 0
    ensures Text(PersistentIdField(p, i)) == Text(PersistentIdField(q, j))
       <==> Text(p[..Min(|p|, 243)]) == Text(q[..Min(|q|, 243)])
  {
    var tag := Ascii("wintab-pnpid:");
    TaggedRead(tag, p);
    TaggedRead(tag, q);
    var a, b := Text(p[..Min(|p|, 243)]), Text(q[..Min(|q|, 243)]);
    assert a == (tag + a)[13..] && b == (tag + b)[13..];
  }

  /** The interface ID counts exactly when the driver reported no bytes of PnP ID. */
  lemma InterfaceUsedIff(pnp: Answer, i: seq<int>, j: seq<int>)
    requires Text(i[..Min(|i|, 246)]) != Text(j[..Min(|j|, 246)]) && |i| > 0 && |j| > 0
    ensures Text(PersistentIdField(InfoString(pnp), i)) != Text(PersistentIdField(InfoString(pnp), j)) <==> pnp.count == 0
  {
    EmptyIff(pnp);
    if pnp.count == 0 {
      var tag := Ascii("wintab-id:");
      TaggedRead(tag, i);
      TaggedRead(tag, j);
      var a, b := Text(i[..Min(|i|, 246)]), Text(j[..Min(|j|, 246)]);
      assert a == (tag + a)[10..] && b == (tag + b)[10..];
    }
  }

  /** A PnP ID of NULs only, however long, escapes trimming, counts as present and hides the interface ID. */
  lemma BlankPnpIdHidesInterface(n: nat, interfaceId: seq<int>)
    requires n > 0
    ensures Text(PersistentIdField(InfoString(Answer(Zeros(1024), n)), interfaceId)) == Ascii("wintab-pnpid:")
  {
    var raw := Resized(Answer(Zeros(1024), n));
    assert raw == Zeros(n) && AllJunk(raw);
    TaggedRead(Ascii("wintab-pnpid:"), raw);
    var kept := raw[..Min(n, 243)];
    assert kept[0] == 0 && Text(kept) == [];
  }
}
