/**
  The on-disk form of access control lists (ext4/acl.c, ext4/acl.h): a header, four-byte
  entries, and eight-byte entries for named users and groups.
 */
module Acl {
  import opened Wrappers

  type byte = b: nat | b < 256

  const VERSION := 1
  const HEADER := 4
  const SHORT := 4
  const LONG := 8

  const USER_OBJ := 0x01
  const USER := 0x02
  const GROUP_OBJ := 0x04
  const GROUP := 0x08
  const MASK := 0x10
  const OTHER := 0x20

  /** An entry in memory. id is the user or group of a named entry. */
  datatype Entry = Entry(tag: nat, perm: nat, id: nat)

  /** ext4_acl_from_disk returns NULL, -EINVAL or a list. */
  datatype Decoded = NoAcl | Invalid | List(acl: seq<Entry>)

  datatype Encoded = Refused | Buffer(data: seq<byte>)

  predicate Named(tag: nat) {
    tag == USER || tag == GROUP
  }

  predicate Plain(tag: nat) {
    tag == USER_OBJ || tag == GROUP_OBJ || tag == MASK || tag == OTHER
  }

  /** The entry fits its fields. */
  ghost predicate Storable(e: Entry) {
    e.tag < 0x10000 && e.perm < 0x10000 && e.id < 0x1_0000_0000
  }

  ghost predicate Storables(acl: seq<Entry>) {
    forall k :: 0 <= k < |acl| ==> Storable(acl[k])
  }

  ghost predicate KnownTags(acl: seq<Entry>) {
    forall k :: 0 <= k < |acl| ==> Named(acl[k].tag) || Plain(acl[k].tag)
  }

  // ---------------------------------------------------------- size and count

  /** ext4_acl_size */
  function Size(count: nat): nat {
    if count <= 4 then HEADER + count * SHORT else HEADER + 4 * SHORT + (count - 4) * LONG
  }

  /** ext4_acl_count on a buffer that has room for the header. */
  function Count(size: nat): int
    requires size >= HEADER
  {
    var n := size - HEADER;
    var s := n - 4 * SHORT;
    if s < 0 then (if n % SHORT != 0 then -1 else n / SHORT)
    else if s % LONG != 0 then -1 else s / LONG + 4
  }

  lemma CountOfSize(count: nat)
    ensures Size(count) >= HEADER && Count(Size(count)) == count
  {
  }

  lemma SizeOfCount(size: nat)
    requires size >= HEADER && Count(size) >= 0
    ensures Size(Count(size)) == size
  {
  }

  // ------------------------------------------------------------------- bytes

  ghost function Le16(n: nat): (r: seq<byte>)
    requires n < 0x10000
    ensures |r| == 2 && Get16(r) == n
  {
    [n % 256, n / 256]
  }

  function Get16(s: seq<byte>): nat
    requires |s| >= 2
  {
    s[0] as nat + 256 * (s[1] as nat)
  }

  ghost function Le32(n: nat): (r: seq<byte>)
    requires n < 0x1_0000_0000
    ensures |r| == 4 && Get32(r) == n
  {
    Le16(n % 0x10000) + Le16(n / 0x10000)
  }

  function Get32(s: seq<byte>): nat
    requires |s| >= 4
  {
    Get16(s) + 0x10000 * Get16(s[2..])
  }

  function EntrySize(e: Entry): nat {
    if Named(e.tag) then LONG else SHORT
  }

  ghost function EntryBytes(e: Entry): (r: seq<byte>)
    requires Storable(e)
    ensures |r| == EntrySize(e)
  {
    Le16(e.tag) + Le16(e.perm) + if Named(e.tag) then Le32(e.id) else []
  }

  /** The entries one after the other. */
  ghost function Bytes(acl: seq<Entry>): seq<byte>
    requires Storables(acl)
  {
    if acl == [] then [] else EntryBytes(acl[0]) + Bytes(acl[1..])
  }

  // ------------------------------------------------------------------ encode

  method Put16(buf: array<byte>, at: nat, n: nat)
    requires at + 2 <= buf.Length && n < 0x10000
    modifies buf
    ensures buf[at..at+2] == Le16(n)
    ensures buf[..at] == old(buf[..at])
  {
    buf[at], buf[at + 1] := n % 256, n / 256;
  }

  method PutEntry(buf: array<byte>, at: nat, e: Entry)
    requires Storable(e) && at + EntrySize(e) <= buf.Length
    modifies buf
    ensures buf[..at] == old(buf[..at])
    ensures buf[at..at+EntrySize(e)] == EntryBytes(e)
  {
    Put16(buf, at, e.tag);
    Put16(buf, at + 2, e.perm);
    assert buf[at..at+2] == buf[..at+2][at..];
    assert buf[at..at+4] == Le16(e.tag) + Le16(e.perm);
    if Named(e.tag) {
      ghost var low := buf[..at+4];
      Put16(buf, at + 4, e.id % 0x10000);
      ghost var mid := buf[..at+6];
      Put16(buf, at + 6, e.id / 0x10000);
      assert buf[..at+6] == mid && mid[..at+4] == low;
      assert buf[at..at+4] == low[at..] && buf[at+4..at+6] == mid[at+4..];
      assert buf[at..at+8] == buf[at..at+4] + buf[at+4..at+6] + buf[at+6..at+8];
    }
  }

  lemma {:induction false} BytesSnoc(acl: seq<Entry>, e: Entry)
    requires Storables(acl) && Storable(e)
    ensures Bytes(acl + [e]) == Bytes(acl) + EntryBytes(e)
  {
    if acl == [] {
      assert Bytes([e]) == EntryBytes(e) + Bytes([]);
      assert acl + [e] == [e];
    } else {
      assert (acl + [e])[0] == acl[0] && (acl + [e])[1..] == acl[1..] + [e];
      BytesSnoc(acl[1..], e);
    }
  }

  lemma {:induction false} BytesSize(acl: seq<Entry>)
    requires Storables(acl)
    ensures |Bytes(acl)| == SHORT * (|acl| - Names(acl)) + LONG * Names(acl) && Names(acl) <= |acl|
  {
    if acl != [] { BytesSize(acl[1..]); }
  }

  /** How many entries are named. */
  ghost function Names(acl: seq<Entry>): nat {
    if acl == [] then 0 else (if Named(acl[0].tag) then 1 else 0) + Names(acl[1..])
  }

  ghost predicate Agree(s: seq<byte>, t: seq<byte>) {
    forall k :: 0 <= k < |s| && k < |t| ==> s[k] == t[k]
  }

  // ------------------------------------------------- the layout, byte by byte

  /** The tags of entries with an id: a named user, a named group. */
  ghost predicate WithId(tag: nat) {
    tag == 2 || tag == 8
  }

  /** The tags of entries without one: owner, group, mask, others. */
  ghost predicate WithoutId(tag: nat) {
    tag == 1 || tag == 4 || tag == 16 || tag == 32
  }

  /** Where entry k starts. */
  ghost function Place(acl: seq<Entry>, k: nat): nat
    requires k <= |acl|
  {
    if k == 0 then 4 else Place(acl, k - 1) + if WithId(acl[k-1].tag) then 8 else 4
  }

  /** Byte i of an entry. */
  ghost function ByteOf(e: Entry, i: nat): nat {
    if i == 0 then e.tag % 256 else if i == 1 then e.tag / 256
    else if i == 2 then e.perm % 256 else if i == 3 then e.perm / 256
    else if i == 4 then e.id % 0x100 else if i == 5 then e.id / 0x100 % 0x100
    else if i == 6 then e.id / 0x1_0000 % 0x100 else e.id / 0x100_0000
  }

  /** As far as it goes, data is the version number 1 and then the entries. */
  ghost predicate LaidOut(data: seq<byte>, acl: seq<Entry>) {
    && |data| >= 4 && data[..4] == [1, 0, 0, 0]
    && forall k, i :: 0 <= k < |acl| && 0 <= i < (if WithId(acl[k].tag) then 8 else 4) && Place(acl, k) + i < |data|
                      ==> data[Place(acl, k) + i] == ByteOf(acl[k], i)
  }

  lemma EntryLayout(e: Entry, i: nat)
    requires Storable(e)
    ensures |EntryBytes(e)| == if WithId(e.tag) then 8 else 4
    ensures i < |EntryBytes(e)| ==> EntryBytes(e)[i] == ByteOf(e, i)
  {
    if Named(e.tag) { WordLayout(e.id); }
  }

  lemma WordLayout(n: nat)
    requires n < 0x1_0000_0000
    ensures Le32(n) == [n % 0x100, n / 0x100 % 0x100, n / 0x1_0000 % 0x100, n / 0x100_0000]
  {
    assert n % 0x10000 % 256 == n % 0x100 && n % 0x10000 / 256 == n / 0x100 % 0x100;
    assert n / 0x10000 / 256 == n / 0x100_0000;
  }

  lemma {:induction false} PlaceIs(acl: seq<Entry>, k: nat)
    requires Storables(acl) && k <= |acl|
    ensures |Bytes(acl[..k])| + 4 == Place(acl, k)
  {
    if k > 0 {
      PlaceIs(acl, k - 1);
      assert acl[..k] == acl[..k-1] + [acl[k-1]];
      BytesSnoc(acl[..k-1], acl[k-1]);
      EntryLayout(acl[k-1], 0);
    }
  }

  lemma {:induction false} BytesConcat(a: seq<Entry>, b: seq<Entry>)
    requires Storables(a) && Storables(b)
    ensures Bytes(a + b) == Bytes(a) + Bytes(b)
  {
    if a == [] {
      assert a + b == b;
    } else {
      assert (a + b)[0] == a[0] && (a + b)[1..] == a[1..] + b;
      BytesConcat(a[1..], b);
    }
  }

  /** The byte of the encoding at offset i of entry k. */
  lemma ByteAt(acl: seq<Entry>, k: nat, i: nat)
    requires Storables(acl) && k < |acl| && i < |EntryBytes(acl[k])|
    ensures 4 <= Place(acl, k) && Place(acl, k) - 4 + i < |Bytes(acl)|
    ensures Bytes(acl)[Place(acl, k) - 4 + i] == EntryBytes(acl[k])[i]
  {
    var a, b := acl[..k], acl[k..];
    assert acl == a + b;
    BytesConcat(a, b);
    PlaceIs(acl, k);
    assert Bytes(b) == EntryBytes(b[0]) + Bytes(b[1..]);
  }

  /** What the encoder writes has this layout. */
  lemma Layout(acl: seq<Entry>, data: seq<byte>)
    requires Storables(acl) && |data| >= HEADER && Agree(data, Le32(VERSION) + Bytes(acl))
    ensures LaidOut(data, acl)
  {
    var w := Le32(VERSION);
    AgreeParts(data, w, Bytes(acl));
    WordLayout(VERSION);
    assert data[..4] == w;
    forall k, i | 0 <= k < |acl| && 0 <= i < (if WithId(acl[k].tag) then 8 else 4) && Place(acl, k) + i < |data|
      ensures data[Place(acl, k) + i] == ByteOf(acl[k], i)
    {
      EntryLayout(acl[k], i);
      ByteAt(acl, k, i);
      assert data[4..][Place(acl, k) - 4 + i] == Bytes(acl)[Place(acl, k) - 4 + i];
    }
  }

  /** ext4_acl_to_disk: the buffer has the size that its number of entries suggests, and
      holds as much of the entries as goes in. */
  method ToDisk(acl: seq<Entry>) returns (r: Encoded)
    requires Storables(acl)
    ensures r.Refused? <==> exists k :: 0 <= k < |acl| && !WithId(acl[k].tag) && !WithoutId(acl[k].tag)
    ensures r.Buffer? ==> |r.data| == Size(|acl|) && Agree(r.data, Le32(VERSION) + Bytes(acl))
    ensures r.Buffer? ==> |r.data| == (if |acl| <= 4 then 4 + 4 * |acl| else 8 * |acl| - 12) && LaidOut(r.data, acl)
  {
    var size := Size(|acl|);
    var buf := new byte[HEADER + |acl| * LONG];
    PutHeader(buf);
    var e := HEADER;
    var n := 0;
    while n < |acl|
      invariant 0 <= n <= |acl| && HEADER <= e <= HEADER + n * LONG && KnownTags(acl[..n])
      invariant buf[..e] == Le32(VERSION) + Bytes(acl[..n])
    {
      if !Named(acl[n].tag) && !Plain(acl[n].tag) {
        return Refused;
      }
      PutNext(buf, e, acl, n);
      e, n := e + EntrySize(acl[n]), n + 1;
    }
    assert acl[..n] == acl;
    r := Buffer(buf[..size]);
    assert forall k :: 0 <= k < size && k < e ==> buf[..size][k] == buf[..e][k];
    Layout(acl, r.data);
  }

  method PutHeader(buf: array<byte>)
    requires buf.Length >= HEADER
    modifies buf
    ensures buf[..HEADER] == Le32(VERSION) + Bytes([])
  {
    Put16(buf, 0, VERSION);
    assert buf[0..2] == buf[..2];
    Put16(buf, 2, 0);
    assert buf[..HEADER] == buf[..2] + buf[2..4];
    assert Le32(VERSION) == Le16(VERSION) + Le16(0);
    assert Le32(VERSION) + [] == Le32(VERSION);
  }

  method PutNext(buf: array<byte>, e: nat, acl: seq<Entry>, n: nat)
    requires Storables(acl) && n < |acl| && e + EntrySize(acl[n]) <= buf.Length
    requires buf[..e] == Le32(VERSION) + Bytes(acl[..n])
    modifies buf
    ensures buf[..e + EntrySize(acl[n])] == Le32(VERSION) + Bytes(acl[..n+1])
  {
    PutEntry(buf, e, acl[n]);
    Appends(acl, n, buf[..e], buf[e..e+EntrySize(acl[n])]);
    assert buf[..e+EntrySize(acl[n])] == buf[..e] + buf[e..e+EntrySize(acl[n])];
  }

  lemma Appends(acl: seq<Entry>, n: nat, done: seq<byte>, more: seq<byte>)
    requires Storables(acl) && n < |acl| && done == Le32(VERSION) + Bytes(acl[..n]) && more == EntryBytes(acl[n])
    ensures done + more == Le32(VERSION) + Bytes(acl[..n+1])
  {
    assert acl[..n+1] == acl[..n] + [acl[n]];
    BytesSnoc(acl[..n], acl[n]);
  }

  // ------------------------------------------------------------------ decode

  /** The entry that s starts with: the body of the loop of ext4_acl_from_disk. */
  function FirstEntry(s: seq<byte>): (r: Option<Entry>)
    ensures r.Some? ==> EntrySize(r.value) <= |s|
  {
    if |s| < SHORT then None
    else
      var tag, perm := Get16(s), Get16(s[2..]);
      if Plain(tag) then Some(Entry(tag, perm, 0))
      else if Named(tag) && |s| >= LONG then Some(Entry(tag, perm, Get32(s[4..])))
      else None
  }

  /** The n entries that s holds, if it holds that many and no more. */
  ghost function Parse(s: seq<byte>, n: nat): Option<seq<Entry>> {
    if n == 0 then (if s == [] then Some([]) else None)
    else match FirstEntry(s)
      case Some(e) => After(e, Parse(s[EntrySize(e)..], n - 1))
      case None => None
  }

  lemma ParseStep(s: seq<byte>, n: nat)
    requires n > 0
    ensures Parse(s, n) ==
              match FirstEntry(s) case Some(e) => After(e, Parse(s[EntrySize(e)..], n - 1)) case None => None
  {
  }

  ghost function After(e: Entry, rest: Option<seq<Entry>>): Option<seq<Entry>> {
    if rest.Some? then Some([e] + rest.value) else None
  }

  ghost function Joined(front: seq<Entry>, rest: Option<seq<Entry>>): Option<seq<Entry>> {
    if rest.Some? then Some(front + rest.value) else None
  }

  lemma JoinedNone(rest: Option<seq<Entry>>)
    ensures Joined([], rest) == rest
  {
    if rest.Some? { assert [] + rest.value == rest.value; }
  }

  lemma JoinedEnd(front: seq<Entry>, s: seq<byte>)
    ensures Joined(front, Parse(s, 0)) == if s == [] then Some(front) else None
  {
    assert front + [] == front;
  }

  lemma JoinedAfter(front: seq<Entry>, e: Entry, rest: Option<seq<Entry>>)
    ensures Joined(front, After(e, rest)) == Joined(front + [e], rest)
  {
    if rest.Some? { assert front + ([e] + rest.value) == (front + [e]) + rest.value; }
  }

  ghost function Decode(value: Option<seq<byte>>): Decoded {
    if value.None? then NoAcl
    else
      var s := value.value;
      if |s| < HEADER || Get32(s) != VERSION || Count(|s|) < 0 then Invalid
      else if Count(|s|) == 0 then NoAcl
      else match Parse(s[HEADER..], Count(|s|))
        case Some(acl) => List(acl)
        case None => Invalid
  }

  /** ext4_acl_from_disk */
  method FromDisk(value: Option<seq<byte>>) returns (r: Decoded)
    ensures r == Decode(value)
  {
    if value.None? {
      return NoAcl;
    }
    var s := value.value;
    if |s| < HEADER {
      return Invalid;
    }
    if Get32(s) != VERSION {
      return Invalid;
    }
    var count := Count(|s|);
    if count < 0 {
      return Invalid;
    }
    if count == 0 {
      return NoAcl;
    }
    var acl := ReadEntries(s[HEADER..], count);
    r := if acl.Some? then List(acl.value) else Invalid;
  }

  /** The loop of ext4_acl_from_disk over the entries behind the header. */
  method ReadEntries(s: seq<byte>, count: nat) returns (r: Option<seq<Entry>>)
    ensures r == Parse(s, count)
  {
    var acl: seq<Entry> := [];
    // what lies between the cursor and the end
    var rest := s;
    var n := 0;
    JoinedNone(Parse(s, count));
    while n < count
      invariant 0 <= n <= count
      invariant Parse(s, count) == Joined(acl, Parse(rest, count - n))
    {
      var e := FirstEntry(rest);
      ParseStep(rest, count - n);
      if e.None? {
        return None;
      }
      JoinedAfter(acl, e.value, Parse(rest[EntrySize(e.value)..], count - n - 1));
      acl, rest, n := acl + [e.value], rest[EntrySize(e.value)..], n + 1;
    }
    JoinedEnd(acl, rest);
    if rest != [] {
      return None;
    }
    r := Some(acl);
  }

  // -------------------------------------------------------------- round trips

  /** What can be read back: plain entries have no id. */
  ghost function Canon(acl: seq<Entry>): (r: seq<Entry>)
    ensures |r| == |acl|
    ensures forall k :: 0 <= k < |acl| ==> r[k] == Canonical(acl[k])
  {
    if acl == [] then [] else [Canonical(acl[0])] + Canon(acl[1..])
  }

  ghost function Canonical(e: Entry): Entry {
    if Named(e.tag) then e else Entry(e.tag, e.perm, 0)
  }

  lemma ShortBytes(e: Entry, s: seq<byte>)
    requires Storable(e) && |s| >= SHORT && Agree(s, EntryBytes(e))
    ensures Get16(s) == e.tag && Get16(s[2..]) == e.perm
  {
    var w := EntryBytes(e);
    assert s[0] == w[0] == Le16(e.tag)[0] && s[1] == w[1] == Le16(e.tag)[1];
    assert s[2] == w[2] == Le16(e.perm)[0] && s[3] == w[3] == Le16(e.perm)[1];
  }

  lemma IdBytes(e: Entry, s: seq<byte>)
    requires Storable(e) && Named(e.tag) && |s| >= LONG && Agree(s, EntryBytes(e))
    ensures Get32(s[4..]) == e.id
  {
    var w, id, t := EntryBytes(e), Le32(e.id), s[4..];
    assert forall k :: 0 <= k < 4 ==> w[4 + k] == id[k];
    assert t[0] == s[4] && t[1] == s[5] && t[2] == s[6] && t[3] == s[7];
    assert t[0] == id[0] && t[1] == id[1] && t[2..][0] == id[2..][0] && t[2..][1] == id[2..][1];
  }

  /** A buffer that starts like an entry is read as that entry if it is long enough. */
  lemma FirstOf(e: Entry, s: seq<byte>)
    requires Storable(e) && (Named(e.tag) || Plain(e.tag)) && Agree(s, EntryBytes(e))
    ensures FirstEntry(s) == if |s| < EntrySize(e) then None else Some(Canonical(e))
  {
    if |s| >= SHORT { ShortBytes(e, s); }
    if |s| >= LONG && Named(e.tag) { IdBytes(e, s); }
  }

  lemma AgreeParts(s: seq<byte>, w: seq<byte>, t: seq<byte>)
    requires Agree(s, w + t)
    ensures Agree(s, w) && (|s| >= |w| ==> Agree(s[|w|..], t))
  {
    var z := w + t;
    forall k | 0 <= k < |s| && k < |w| ensures s[k] == w[k] { assert s[k] == z[k]; }
    if |s| >= |w| {
      forall k | 0 <= k < |s[|w|..]| && k < |t| ensures s[|w|..][k] == t[k] { assert s[|w| + k] == z[|w| + k]; }
    }
  }

  /** The entries are read back exactly when the buffer has their length. */
  lemma {:induction false} ParsePrefix(acl: seq<Entry>, s: seq<byte>)
    requires Storables(acl) && KnownTags(acl) && Agree(s, Bytes(acl))
    ensures Parse(s, |acl|) == if |s| == |Bytes(acl)| then Some(Canon(acl)) else None
    decreases |acl|
  {
    if acl != [] {
      var e := acl[0];
      AgreeParts(s, EntryBytes(e), Bytes(acl[1..]));
      FirstOf(e, s);
      ParseStep(s, |acl|);
      if |s| >= EntrySize(e) {
        ParsePrefix(acl[1..], s[EntrySize(e)..]);
      }
    }
  }

  /** As many plain entries as the size computation counts on. */
  ghost predicate Fits(acl: seq<Entry>) {
    if |acl| <= 4 then Names(acl) == 0 else |acl| - Names(acl) == 4
  }

  /** Decoding what the encoder wrote gives the list back exactly when its plain entries are as many as the size
      computation counts on, and is refused otherwise. */
  lemma RoundTripIff(acl: seq<Entry>, data: seq<byte>)
    requires Storables(acl) && KnownTags(acl) && acl != []
    requires |data| == Size(|acl|) && Agree(data, Le32(VERSION) + Bytes(acl))
    ensures Decode(Some(data)) == if Fits(acl) then List(Canon(acl)) else Invalid
  {
    CountOfSize(|acl|);
    BytesSize(acl);
    AgreeParts(data, Le32(VERSION), Bytes(acl));
    HeaderOf(data);
    ParsePrefix(acl, data[HEADER..]);
  }

  lemma HeaderOf(data: seq<byte>)
    requires |data| >= HEADER && Agree(data, Le32(VERSION))
    ensures Get32(data) == VERSION
  {
    var w := Le32(VERSION);
    assert data[0] == w[0] && data[1] == w[1];
    assert data[2..][0] == w[2..][0] && data[2..][1] == w[2..][1];
  }

  /** The entries of a parsed buffer are what it holds. */
  lemma {:induction false} ParseInverse(s: seq<byte>, n: nat)
    requires Parse(s, n).Some?
    ensures var acl := Parse(s, n).value; |acl| == n && Storables(acl) && KnownTags(acl) && Bytes(acl) == s
    decreases n
  {
    if n > 0 {
      ParseStep(s, n);
      var e := FirstEntry(s).value;
      var rest := s[EntrySize(e)..];
      ParseInverse(rest, n - 1);
      FirstBytes(s);
      var acl := Parse(s, n).value;
      assert acl[0] == e && acl[1..] == Parse(rest, n - 1).value;
    }
  }

  lemma FirstBytes(s: seq<byte>)
    requires FirstEntry(s).Some?
    ensures var e := FirstEntry(s).value;
            Storable(e) && (Named(e.tag) || Plain(e.tag)) && s == EntryBytes(e) + s[EntrySize(e)..]
  {
    var e := FirstEntry(s).value;
    if Named(e.tag) { NamedBytes(s, e); } else { PlainBytes(s, e); }
  }

  lemma PlainBytes(s: seq<byte>, e: Entry)
    requires |s| >= SHORT && Plain(e.tag) && e == Entry(Get16(s), Get16(s[2..]), 0)
    ensures Storable(e) && s == EntryBytes(e) + s[SHORT..]
  {
    Le16Get(s);
    Le16Get(s[2..]);
    var w := Le16(e.tag) + Le16(e.perm);
    assert EntryBytes(e) == w + [] == w;
    Halves(s, w);
  }

  lemma NamedBytes(s: seq<byte>, e: Entry)
    requires |s| >= LONG && Named(e.tag) && e == Entry(Get16(s), Get16(s[2..]), Get32(s[4..]))
    ensures Storable(e) && s == EntryBytes(e) + s[LONG..]
  {
    var w := Le16(e.tag) + Le16(e.perm);
    Le16Get(s);
    Le16Get(s[2..]);
    Halves(s, w);
    Le32Get(s[4..]);
    Halved(s, w, Le32(e.id));
  }

  lemma Halves(s: seq<byte>, w: seq<byte>)
    requires |s| >= 4 && w == s[..2] + s[2..][..2]
    ensures s == w + s[4..] && w == s[..4]
  {
  }

  lemma Halved(s: seq<byte>, w: seq<byte>, id: seq<byte>)
    requires |s| >= 8 && w == s[..4] && id == s[4..][..4]
    ensures s == (w + id) + s[8..]
  {
  }

  lemma Le16Get(s: seq<byte>)
    requires |s| >= 2
    ensures Get16(s) < 0x10000 && Le16(Get16(s)) == s[..2]
  {
  }

  lemma Le32Get(s: seq<byte>)
    requires |s| >= 4
    ensures Get32(s) < 0x1_0000_0000 && Le32(Get32(s)) == s[..4]
  {
    Le16Get(s);
    Le16Get(s[2..]);
    SplitWord(Get16(s), Get16(s[2..]));
    Halves(s, Le16(Get16(s)) + Le16(Get16(s[2..])));
  }

  lemma SplitWord(lo: nat, hi: nat)
    requires lo < 0x10000 && hi < 0x10000
    ensures (lo + 0x10000 * hi) % 0x10000 == lo && (lo + 0x10000 * hi) / 0x10000 == hi &&
              lo + 0x10000 * hi < 0x1_0000_0000
  {
  }

  /** Encoding what the decoder read gives the buffer back. */
  lemma DecodeEncode(data: seq<byte>)
    requires Decode(Some(data)).List?
    ensures var acl := Decode(Some(data)).acl;
            Storables(acl) && KnownTags(acl) && acl != [] && Size(|acl|) == |data| &&
                Le32(VERSION) + Bytes(acl) == data && Fits(acl)
  {
    ParseInverse(data[HEADER..], Count(|data|));
    SizeOfCount(|data|);
    var acl := Decode(Some(data)).acl;
    BytesSize(acl);
    Le32Get(data);
  }

  // ---------------------------------------------------------------- valid lists

  ghost function Tagged(acl: seq<Entry>, tag: nat): nat {
    if acl == [] then 0 else (if acl[0].tag == tag then 1 else 0) + Tagged(acl[1..], tag)
  }

  /** A list as section 23 of the withdrawn POSIX 1003.1e draft 17 has it: one entry for the owner, the group and
      the others, and a mask if there are named entries. */
  ghost predicate PosixValid(acl: seq<Entry>) {
    && (forall k :: 0 <= k < |acl| ==> WithId(acl[k].tag) || WithoutId(acl[k].tag))
    && Tagged(acl, 1) == 1 && Tagged(acl, 4) == 1 && Tagged(acl, 32) == 1
    && Tagged(acl, 16) <= 1 && (Tagged(acl, 2) + Tagged(acl, 8) > 0 ==> Tagged(acl, 16) == 1)
  }

  lemma {:induction false} TagsAddUp(acl: seq<Entry>)
    requires KnownTags(acl)
    ensures Names(acl) == Tagged(acl, 2) + Tagged(acl, 8)
    ensures |acl| == Names(acl) + Tagged(acl, 1) + Tagged(acl, 4) + Tagged(acl, 32) + Tagged(acl, 16)
  {
    if acl != [] { TagsAddUp(acl[1..]); }
  }

  lemma ValidFits(acl: seq<Entry>)
    requires PosixValid(acl)
    ensures Fits(acl) && acl != []
  {
    TagsAddUp(acl);
  }

  /** Writing any list of known entries and reading it again: an empty list is read as none, any other is read back
      or refused. */
  method WriteAndRead(acl: seq<Entry>) returns (enc: Encoded, dec: Decoded)
    requires Storables(acl) && KnownTags(acl)
    ensures enc.Buffer? && |enc.data| == Size(|acl|) && Agree(enc.data, Le32(VERSION) + Bytes(acl))
    ensures LaidOut(enc.data, acl)
    ensures dec == if acl == [] then NoAcl else if Fits(acl) then List(Canon(acl)) else Invalid
  {
    enc := ToDisk(acl);
    dec := FromDisk(Some(enc.data));
    if acl == [] {
      AgreeParts(enc.data, Le32(VERSION), []);
      HeaderOf(enc.data);
    } else {
      RoundTripIff(acl, enc.data);
    }
  }

  /** The decoder accepts the images of the lists whose plain entries are as many as the size computation counts
      on, and reads each as the list without ids in those entries. */
  lemma DecodeIff(data: seq<byte>, acl: seq<Entry>)
    ensures Decode(Some(data)) == List(acl) <==>
              && acl != [] && Storables(acl) && KnownTags(acl) && Fits(acl) && Le32(VERSION) + Bytes(acl) == data
              && forall k :: 0 <= k < |acl| && WithoutId(acl[k].tag) ==> acl[k].id == 0
  {
    if Decode(Some(data)) == List(acl) {
      DecodeEncode(data);
      RoundTripIff(acl, data);
      forall k | 0 <= k < |acl| && WithoutId(acl[k].tag) ensures acl[k].id == 0 {
        assert acl[k] == Canonical(acl[k]);
      }
    }
    if acl != [] && Storables(acl) && KnownTags(acl) && Fits(acl) && Le32(VERSION) + Bytes(acl) == data {
      BytesSize(acl);
      RoundTripIff(acl, data);
      if forall k :: 0 <= k < |acl| && WithoutId(acl[k].tag) ==> acl[k].id == 0 {
        assert Canon(acl) == acl;
      }
    }
  }

  /** No list: there is no attribute, or it is the header alone. */
  lemma NoAclIff(value: Option<seq<byte>>)
    ensures Decode(value) == NoAcl <==> value.None? || value.value == [1, 0, 0, 0]
  {
    if value.Some? && |value.value| == HEADER {
      Le32Get(value.value);
      WordLayout(VERSION);
      assert value.value[..4] == value.value;
      HeaderOf([1, 0, 0, 0]);
    }
  }

  /** The plain entries of a list that is read back have lost their ids and nothing else. */
  lemma CanonIs(acl: seq<Entry>, k: nat)
    requires k < |acl| && Storables(acl) && KnownTags(acl)
    ensures Canon(acl)[k] == Entry(acl[k].tag, acl[k].perm, if WithId(acl[k].tag) then acl[k].id else 0)
  {
  }

  /** Every valid list survives: it is read back, and the buffer holds its entries and nothing else. */
  method ValidRoundTrip(acl: seq<Entry>) returns (enc: Encoded, dec: Decoded)
    requires Storables(acl) && PosixValid(acl)
    ensures enc.Buffer? && enc.data == Le32(VERSION) + Bytes(acl)
    ensures dec == List(Canon(acl))
    ensures LaidOut(enc.data, acl) && |enc.data| == Place(acl, |acl|)
    ensures forall k :: 0 <= k < |acl| ==>
              dec.acl[k] == Entry(acl[k].tag, acl[k].perm, if WithId(acl[k].tag) then acl[k].id else 0)
  {
    ValidFits(acl);
    enc, dec := WriteAndRead(acl);
    BytesSize(acl);
    assert acl[..|acl|] == acl;
    PlaceIs(acl, |acl|);
    forall k | 0 <= k < |acl|
      ensures dec.acl[k] == Entry(acl[k].tag, acl[k].perm, if WithId(acl[k].tag) then acl[k].id else 0)
    {
      CanonIs(acl, k);
    }
  }

  /** A named entry without a mask does not survive. */
  method NamedWithoutMask(acl: seq<Entry>) returns (enc: Encoded, dec: Decoded)
    requires acl == [Entry(USER_OBJ, 7, 0), Entry(USER, 7, 1000), Entry(GROUP_OBJ, 5, 0), Entry(OTHER, 5, 0)]
    ensures enc.Buffer? && dec == Invalid
  {
    assert Names(acl) > 0 by {
      assert Names(acl) == Names(acl[1..]) && Named(acl[1..][0].tag);
    }
    enc, dec := WriteAndRead(acl);
  }
}
