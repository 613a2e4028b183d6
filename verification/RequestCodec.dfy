/**
 The delimiter-based RPC request of micro/rpc/message/request.go: a 15-byte fixed part,
 then the names and the metadata separated by line feeds, then the data. The metadata is
 a map walked in whatever order the runtime picks. Text is bytes; a nil map or slice and
 an empty one are the same value here.
 */
module RequestCodec {
  import opened Common
  import opened Bytes

  type Text = seq<byte>

  const LF: byte := 10
  const CR: byte := 13
  const FIXED := 15

  datatype Request = Request(headLength: u32, bodyLength: u32, messageID: u32,
                             version: u8, compressor: u8, serializer: u8,
                             serviceName: Text, methodName: Text, meta: map<Text, Text>, data: seq<byte>)

  // ---------------------------------------------------------------- iteration orders

  ghost predicate IsOrder(order: seq<Text>, keys: set<Text>) {
    && (forall i, j :: 0 <= i < j < |order| ==> order[i] != order[j])
    && (forall k :: k in order <==> k in keys)
  }

  ghost function SomeOrder(keys: set<Text>): (order: seq<Text>)
    ensures IsOrder(order, keys)
  {
    if keys == {} then [] else var k :| k in keys; [k] + SomeOrder(keys - {k})
  }

  /** One metadata entry as it is written. */
  function Entry(k: Text, v: Text): Text {
    k + [CR] + v + [LF]
  }

  ghost predicate Within(order: seq<Text>, meta: map<Text, Text>) {
    forall k :: k in order ==> k in meta
  }

  ghost function MetaBytes(meta: map<Text, Text>, order: seq<Text>): seq<byte>
    requires Within(order, meta)
  {
    if order == [] then [] else Entry(order[0], meta[order[0]]) + MetaBytes(meta, order[1..])
  }

  lemma {:induction false} MetaBytesConcat(meta: map<Text, Text>, a: seq<Text>, b: seq<Text>)
    requires Within(a, meta) && Within(b, meta)
    ensures Within(a + b, meta) && MetaBytes(meta, a + b) == MetaBytes(meta, a) + MetaBytes(meta, b)
  {
    hide Entry;
    assert Within(a + b, meta);
    if a == [] {
      assert a + b == b;
    } else {
      assert (a + b)[1..] == a[1..] + b;
      MetaBytesConcat(meta, a[1..], b);
    }
  }

  /** Moving one key of an order to the front keeps the length. */
  lemma LengthWithKeyFirst(meta: map<Text, Text>, front: seq<Text>, k: Text, back: seq<Text>)
    requires Within(front + [k] + back, meta)
    ensures Within(front + back, meta) && k in meta
    ensures |MetaBytes(meta, front + [k] + back)| == |Entry(k, meta[k])| + |MetaBytes(meta, front + back)|
  {
    hide Entry;
    var all := front + [k] + back;
    assert forall x :: x in front || x in back || x == k ==> x in all;
    assert Within(front, meta) && Within(back, meta) && Within([k] + back, meta);
    MetaBytesConcat(meta, front, back);
    MetaBytesConcat(meta, front, [k] + back);
    assert front + ([k] + back) == all;
    assert ([k] + back)[1..] == back;
  }

  /** All orders give the same number of bytes. */
  lemma {:induction false} LengthIsOrderFree(meta: map<Text, Text>, a: seq<Text>, b: seq<Text>)
    requires multiset(a) == multiset(b) && Within(a, meta) && Within(b, meta)
    ensures |MetaBytes(meta, a)| == |MetaBytes(meta, b)|
  {
    hide Entry, Within;
    if a == [] {
      assert |multiset(b)| == 0;
    } else {
      var k, rest := a[0], a[1..];
      var i := FindKey(a, b);
      var front, back := b[..i], b[i + 1..];
      assert b == front + [k] + back && a == [] + [k] + rest && [] + rest == rest;
      LengthWithKeyFirst(meta, front, k, back);
      LengthWithKeyFirst(meta, [], k, rest);
      LengthIsOrderFree(meta, rest, front + back);
    }
  }

  lemma FindKey(a: seq<Text>, b: seq<Text>) returns (i: nat)
    requires a != [] && multiset(a) == multiset(b)
    ensures i < |b| && b[i] == a[0]
    ensures multiset(a[1..]) == multiset(b[..i] + b[i + 1..])
  {
    assert a == [a[0]] + a[1..];
    assert a[0] in multiset(b);
    i :| 0 <= i < |b| && b[i] == a[0];
    assert b == b[..i] + [b[i]] + b[i + 1..];
    var m := multiset(b[..i]) + multiset(b[i + 1..]);
    assert multiset(b) == m + multiset{b[i]};
    assert multiset(b) - multiset{b[i]} == m;
    assert multiset(a) == multiset(a[1..]) + multiset{a[0]};
    assert multiset(a) - multiset{a[0]} == multiset(a[1..]);
  }

  lemma {:induction false} OrdersArePermutations(a: seq<Text>, b: seq<Text>, keys: set<Text>)
    requires IsOrder(a, keys) && IsOrder(b, keys)
    ensures multiset(a) == multiset(b)
  {
    OrderAsMultiset(a, keys);
    OrderAsMultiset(b, keys);
  }

  lemma {:induction false} OrderAsMultiset(a: seq<Text>, keys: set<Text>)
    requires IsOrder(a, keys)
    ensures multiset(a) == multiset(keys)
  {
    if a == [] {
      assert keys == {};
    } else {
      var k, rest := a[0], a[1..];
      assert a == [k] + rest;
      assert IsOrder(rest, keys - {k});
      OrderAsMultiset(rest, keys - {k});
      assert keys == (keys - {k}) + {k};
    }
  }

  // ---------------------------------------------------------------- the format

  ghost function MetaSize(meta: map<Text, Text>): nat {
    |MetaBytes(meta, SomeOrder(meta.Keys))|
  }

  ghost function HeadSize(r: Request): nat {
    FIXED + |r.serviceName| + 1 + |r.methodName| + 1 + MetaSize(r.meta)
  }

  /** The length fields have been calculated and nothing overflowed 32 bits. */
  ghost predicate Sized(r: Request) {
    r.headLength == HeadSize(r) && r.bodyLength == |r.data| && r.headLength + r.bodyLength < 0x1_0000_0000
  }

  function FixedPart(r: Request): (s: seq<byte>)
    ensures |s| == FIXED
  {
    Put(r.headLength, 4) + Put(r.bodyLength, 4) + Put(r.messageID, 4) + [r.version, r.compressor, r.serializer]
  }

  function Names(r: Request): seq<byte> {
    r.serviceName + [LF] + r.methodName + [LF]
  }

  ghost function Encoding(r: Request, order: seq<Text>): seq<byte>
    requires Within(order, r.meta)
  {
    FixedPart(r) + Names(r) + MetaBytes(r.meta, order) + r.data
  }

  lemma MetaSizeOf(meta: map<Text, Text>, order: seq<Text>)
    requires IsOrder(order, meta.Keys)
    ensures |MetaBytes(meta, order)| == MetaSize(meta)
  {
    var any := SomeOrder(meta.Keys);
    OrdersArePermutations(order, any, meta.Keys);
    LengthIsOrderFree(meta, order, any);
  }

  /** The bytes on the wire, by their positions; LF is 10 and CR is 13. */
  lemma RequestLayout(r: Request, order: seq<Text>)
    requires Within(order, r.meta)
    ensures var s := Encoding(r, order);
            && |s| >= 15
            && At4(s, 0) == r.headLength && At4(s, 4) == r.bodyLength && At4(s, 8) == r.messageID
            && s[12] == r.version && s[13] == r.compressor && s[14] == r.serializer
            && s[15..] == r.serviceName + [10] + r.methodName + [10] + MetaBytes(r.meta, order) + r.data
  {
    hide MetaBytes, At4, Get, Get32;
    var tail := Names(r) + MetaBytes(r.meta, order) + r.data;
    var s := Encoding(r, order);
    assert s == FixedPart(r) + tail;
    FixedPartParses(r, tail);
    BigEndian(s, 0);
    BigEndian(s, 4);
    BigEndian(s, 8);
    Get32Is(s[0..4]);
    Get32Is(s[4..8]);
    Get32Is(s[8..12]);
    assert s[15..] == tail;
  }

  lemma Get32Is(s: seq<byte>)
    requires |s| == 4
    ensures Get32(s) == Get(s)
  {
  }

  /** Each entry is its key, a CR, its value and an LF, one after the other. */
  lemma EntryLayout(meta: map<Text, Text>, order: seq<Text>)
    requires Within(order, meta) && order != []
    ensures order[0] in meta
    ensures MetaBytes(meta, order) == order[0] + [13] + meta[order[0]] + [10] + MetaBytes(meta, order[1..])
  {
    assert order[0] in order;
  }

  // ---------------------------------------------------------------- the decoder

  /** Metadata entries up to the last line feed; an entry without a carriage return panics. */
  function DecodeMeta(h: seq<byte>, meta: map<Text, Text>): Option<map<Text, Text>>
    decreases |h|
  {
    var i := IndexOf(h, LF);
    if i < 0 then Some(meta)
    else
      var j := IndexOf(h[..i], CR);
      if j < 0 then None else DecodeMeta(h[i + 1..], meta[h[..j] := h[j + 1..i]])
  }

  /** None where the source panics: a missing delimiter or a slice out of range. */
  function Decode(s: seq<byte>): Option<Request> {
    if |s| < FIXED then None
    else
      var head, body, id := Get32(s[0..4]), Get32(s[4..8]), Get32(s[8..12]);
      if head < FIXED || head > |s| then None
      else
        var h := s[FIXED..head];
        var i := IndexOf(h, LF);
        if i < 0 then None
        else
          var h' := h[i + 1..];
          var j := IndexOf(h', LF);
          if j < 0 then None
          else
            var meta := DecodeMeta(h'[j + 1..], map[]);
            if meta.None? then None
            else Some(Request(head, body, id, s[12], s[13], s[14], h[..i], h'[..j], meta.value,
                              if body > 0 then s[head..] else []))
  }

  /** What a decoded request says of the bytes: the fixed fields, the two names up to their line feeds, the data. */
  lemma DecodedFields(s: seq<byte>)
    ensures Decode(s).Some? ==>
              && 15 <= At4(s, 0) <= |s|
              && var r, head := Decode(s).value, At4(s, 0);
                 && r.headLength == head && r.bodyLength == At4(s, 4) && r.messageID == At4(s, 8)
                 && r.version == s[12] && r.compressor == s[13] && r.serializer == s[14]
                 && 10 !in r.serviceName && 10 !in r.methodName
                 && r.serviceName + [10] + r.methodName + [10] <= s[15..head]
                 && r.data == if At4(s, 4) > 0 then s[head..] else []
  {
    if Decode(s).Some? {
      FixedFields(s);
      hide At4, Get32, DecodeMeta;
      NamesInFront(s[15..Get32(s[0..4])]);
    }
  }

  lemma FixedFields(s: seq<byte>)
    requires |s| >= 15
    ensures Get32(s[0..4]) == At4(s, 0) && Get32(s[4..8]) == At4(s, 4) && Get32(s[8..12]) == At4(s, 8)
  {
    hide At4, Get;
    BigEndian(s, 0);
    BigEndian(s, 4);
    BigEndian(s, 8);
  }

  /** The two cuts of a header. */
  lemma NamesInFront(h: seq<byte>)
    requires IndexOf(h, LF) >= 0 && IndexOf(h[IndexOf(h, LF) + 1..], LF) >= 0
    ensures var i := IndexOf(h, LF); var h' := h[i + 1..]; var j := IndexOf(h', LF);
            LF !in h[..i] && LF !in h'[..j] && h[..i] + [LF] + h'[..j] + [LF] <= h
  {
    var i := IndexOf(h, LF);
    var h' := h[i + 1..];
    var j := IndexOf(h', LF);
    hide IndexOf;
    CutAt(h, i);
    CutAt(h', j);
    TwoCuts(h[..i], h'[..j], h'[j + 1..]);
  }

  lemma TwoCuts(a: seq<byte>, b: seq<byte>, c: seq<byte>)
    ensures a + [LF] + b + [LF] <= a + [LF] + (b + [LF] + c)
  {
    assert a + [LF] + (b + [LF] + c) == (a + [LF] + b + [LF]) + c;
  }

  lemma CutAt(h: seq<byte>, i: nat)
    requires i < |h|
    ensures h == h[..i] + [h[i]] + h[i + 1..]
  {
  }

  /** No delimiter where it would be taken for one. */
  ghost predicate CleanMeta(meta: map<Text, Text>) {
    forall k :: k in meta ==> LF !in k && CR !in k && LF !in meta[k]
  }

  ghost predicate Clean(r: Request) {
    LF !in r.serviceName && LF !in r.methodName && CleanMeta(r.meta)
  }

  // ---------------------------------------------------------------- decoding what was encoded

  lemma IndexAfter(x: seq<byte>, c: byte, rest: seq<byte>)
    requires c !in x
    ensures IndexOf(x + [c] + rest, c) == |x|
  {
    var s := x + [c] + rest;
    assert s[|x|] == c;
    assert forall j :: 0 <= j < |x| ==> s[j] == x[j];
  }

  lemma DecodeEntry(k: Text, v: Text, rest: seq<byte>, meta: map<Text, Text>)
    requires LF !in k && CR !in k && LF !in v
    ensures DecodeMeta(Entry(k, v) + rest, meta) == DecodeMeta(rest, meta[k := v])
  {
    var h, pair := Entry(k, v) + rest, k + [CR] + v;
    assert h == pair + [LF] + rest;
    assert LF !in pair;
    IndexAfter(pair, LF, rest);
    IndexAfter(k, CR, v);
    assert h[..|pair|] == pair && h[|pair| + 1..] == rest;
    assert h[..|k|] == k && h[|k| + 1..|pair|] == v;
  }

  /** The map built by storing the entries of `meta` one by one. */
  ghost function Stored(acc: map<Text, Text>, meta: map<Text, Text>, order: seq<Text>): map<Text, Text>
    requires Within(order, meta)
    decreases |order|
  {
    if order == [] then acc else Stored(acc[order[0] := meta[order[0]]], meta, order[1..])
  }

  lemma {:induction false} StoredAll(acc: map<Text, Text>, meta: map<Text, Text>, order: seq<Text>)
    requires Within(order, meta)
    requires forall k :: k in acc ==> k in meta && acc[k] == meta[k]
    ensures forall k :: k in Stored(acc, meta, order) <==> k in acc || k in order
    ensures forall k :: k in Stored(acc, meta, order) ==> k in meta && Stored(acc, meta, order)[k] == meta[k]
    decreases |order|
  {
    if order != [] {
      assert order == [order[0]] + order[1..];
      StoredAll(acc[order[0] := meta[order[0]]], meta, order[1..]);
    }
  }

  lemma {:induction false} DecodeMetaBytes(meta: map<Text, Text>, order: seq<Text>, acc: map<Text, Text>)
    requires CleanMeta(meta) && Within(order, meta)
    ensures DecodeMeta(MetaBytes(meta, order), acc) == Some(Stored(acc, meta, order))
    decreases |order|
  {
    if order != [] {
      hide Entry, DecodeMeta;
      var k := order[0];
      DecodeEntry(k, meta[k], MetaBytes(meta, order[1..]), acc);
      DecodeMetaBytes(meta, order[1..], acc[k := meta[k]]);
    }
  }

  lemma FixedPartParses(r: Request, rest: seq<byte>)
    ensures FixedFieldsOf(FixedPart(r) + rest, r)
  {
    Widths();
    GetPut(r.headLength, 4);
    GetPut(r.bodyLength, 4);
    GetPut(r.messageID, 4);
    hide Put, Get, Width;
    var s := FixedPart(r) + rest;
    assert s[0..4] == Put(r.headLength, 4);
    assert s[4..8] == Put(r.bodyLength, 4);
    assert s[8..12] == Put(r.messageID, 4);
  }

  /** The decoder's cuts, on a clean encoding. */
  lemma HeaderCuts(sn: Text, mn: Text, tail: seq<byte>)
    requires LF !in sn && LF !in mn
    ensures var h := sn + [LF] + mn + [LF] + tail;
            && IndexOf(h, LF) == |sn| && h[..|sn|] == sn
            && var h' := h[|sn| + 1..];
               IndexOf(h', LF) == |mn| && h'[..|mn|] == mn && h'[|mn| + 1..] == tail
  {
    var h := sn + [LF] + mn + [LF] + tail;
    assert h == sn + [LF] + (mn + [LF] + tail);
    IndexAfter(sn, LF, mn + [LF] + tail);
    assert h[|sn| + 1..] == mn + [LF] + tail;
    IndexAfter(mn, LF, tail);
  }

  /** Where the encoding's header and data lie. */
  lemma EncodingCuts(r: Request, order: seq<Text>)
    requires Sized(r) && IsOrder(order, r.meta.Keys)
    ensures var s := Encoding(r, order);
            && |s| == r.headLength + r.bodyLength && r.headLength >= FIXED
            && s[FIXED..r.headLength] == Names(r) + MetaBytes(r.meta, order) && s[r.headLength..] == r.data
            && s == FixedPart(r) + s[FIXED..]
  {
    MetaSizeOf(r.meta, order);
    hide FixedPart, MetaBytes, MetaSize;
    var fixed, head := FixedPart(r), Names(r) + MetaBytes(r.meta, order);
    assert |fixed| + |head| == r.headLength;
    assert Encoding(r, order) == fixed + head + r.data;
    CutThree(fixed, head, r.data);
  }

  ghost predicate FixedFieldsOf(s: seq<byte>, r: Request) {
    && |s| >= FIXED
    && Get32(s[0..4]) == r.headLength && Get32(s[4..8]) == r.bodyLength && Get32(s[8..12]) == r.messageID
    && s[12] == r.version && s[13] == r.compressor && s[14] == r.serializer
  }

  /** The decoder's result, once every cut it makes is known. */
  lemma DecodeByCuts(s: seq<byte>, r: Request, tail: seq<byte>)
    requires FixedFieldsOf(s, r) && FIXED <= r.headLength <= |s| && (r.bodyLength == 0 ==> r.data == [])
    requires s[FIXED..r.headLength] == Names(r) + tail && s[r.headLength..] == r.data
    requires LF !in r.serviceName && LF !in r.methodName && DecodeMeta(tail, map[]) == Some(r.meta)
    ensures Decode(s) == Some(r)
  {
    hide Get32, IndexOf, DecodeMeta;
    HeaderCuts(r.serviceName, r.methodName, tail);
  }

  /** Whatever the iteration order, a clean request survives the round trip. */
  lemma DecodeEncoding(r: Request, order: seq<Text>)
    requires Sized(r) && IsOrder(order, r.meta.Keys) && Clean(r)
    ensures Decode(Encoding(r, order)) == Some(r)
  {
    hide FixedPart, MetaBytes, DecodeMeta, MetaSize, Encoding, Stored, Decode, Names;
    var s := Encoding(r, order);
    EncodingCuts(r, order);
    DecodeMetaBytes(r.meta, order, map[]);
    StoredAll(map[], r.meta, order);
    assert Stored(map[], r.meta, order) == r.meta;
    FixedPartParses(r, s[FIXED..]);
    DecodeByCuts(s, r, MetaBytes(r.meta, order));
  }

  lemma EntryIsClean(h: seq<byte>, i: nat, j: nat)
    requires i == IndexOf(h, LF) && j < i && j == IndexOf(h[..i], CR)
    ensures LF !in h[..j] && CR !in h[..j] && LF !in h[j + 1..i]
  {
    assert forall x :: 0 <= x < i ==> h[..i][x] == h[x];
  }

  lemma {:induction false} DecodedMetaIsClean(h: seq<byte>, acc: map<Text, Text>)
    requires CleanMeta(acc)
    ensures DecodeMeta(h, acc).Some? ==> CleanMeta(DecodeMeta(h, acc).value)
    decreases |h|
  {
    var i := IndexOf(h, LF);
    if i >= 0 {
      var j := IndexOf(h[..i], CR);
      if j >= 0 {
        EntryIsClean(h, i, j);
        DecodedMetaIsClean(h[i + 1..], acc[h[..j] := h[j + 1..i]]);
      }
    }
  }

  /** The decoder never produces a delimiter inside a name, a key or a value. */
  lemma DecodedIsClean(s: seq<byte>)
    requires Decode(s).Some?
    ensures Clean(Decode(s).value)
  {
    var head := Get32(s[0..4]);
    var h := s[FIXED..head];
    var i := IndexOf(h, LF);
    var h' := h[i + 1..];
    var j := IndexOf(h', LF);
    DecodedMetaIsClean(h'[j + 1..], map[]);
  }

  /** The round trip holds for every iteration order exactly when the request is clean. */
  lemma RoundTripExactly(r: Request, order: seq<Text>)
    requires Sized(r) && IsOrder(order, r.meta.Keys)
    ensures Decode(Encoding(r, order)) == Some(r) <==> Clean(r)
  {
    if Clean(r) {
      DecodeEncoding(r, order);
    } else if Decode(Encoding(r, order)) == Some(r) {
      DecodedIsClean(Encoding(r, order));
    }
  }

  /** A request of one metadata entry and nothing else, its lengths calculated. */
  function OneEntry(k: Text, v: Text): Request
    requires |k| + |v| < 0x1_0000
  {
    Request(FIXED + 4 + |k| + |v|, 0, 0, 0, 0, 0, [], [], map[k := v], [])
  }

  lemma OneEntrySized(k: Text, v: Text)
    requires |k| + |v| < 0x1_0000
    ensures Sized(OneEntry(k, v)) && IsOrder([k], OneEntry(k, v).meta.Keys)
    ensures MetaBytes(OneEntry(k, v).meta, [k]) == Entry(k, v)
  {
    var r := OneEntry(k, v);
    assert [k][1..] == [] && Entry(k, v) + [] == Entry(k, v);
    assert IsOrder([k], r.meta.Keys);
    MetaSizeOf(r.meta, [k]);
  }

  /** Every entry whose key holds a carriage return is silently decoded as another key with another value. */
  lemma ReturnInKeyMovesTheCut(a: Text, b: Text, v: Text)
    requires LF !in a && CR !in a && LF !in b && LF !in v && |a| + |b| + |v| < 0x8000
    ensures var k := a + [CR] + b; var r := OneEntry(k, v);
            && Sized(r) && IsOrder([k], r.meta.Keys)
            && Decode(Encoding(r, [k])) == Some(r.(meta := map[a := b + [CR] + v]))
  {
    var k, w := a + [CR] + b, b + [CR] + v;
    var r := OneEntry(k, v);
    OneEntrySized(k, v);
    assert Entry(k, v) == Entry(a, w) + [];
    DecodeEntry(a, w, [], map[]);
    assert DecodeMeta([], map[a := w]) == Some(map[a := w]);
    hide DecodeMeta, MetaBytes, Entry, FixedPart, MetaSize, Names, Decode, IsOrder;
    EncodingCuts(r, [k]);
    FixedPartParses(r, Encoding(r, [k])[FIXED..]);
    DecodeByCuts(Encoding(r, [k]), r.(meta := map[a := w]), Entry(k, v));
  }

  /** Every value with a line feed and no carriage return after it makes the decoder panic. */
  lemma FeedInValuePanics(k: Text, p: Text, q: Text)
    requires LF !in k && CR !in k && LF !in p && LF !in q && CR !in q && |k| + |p| + |q| < 0x8000
    ensures var v := p + [LF] + q; var r := OneEntry(k, v);
            Sized(r) && IsOrder([k], r.meta.Keys) && Decode(Encoding(r, [k])) == None
  {
    var v := p + [LF] + q;
    var r := OneEntry(k, v);
    OneEntrySized(k, v);
    assert Entry(k, v) == Entry(k, p) + (q + [LF]);
    DecodeEntry(k, p, q + [LF], map[]);
    NoCut(q, map[k := p]);
    hide DecodeMeta, MetaBytes, Entry, FixedPart, MetaSize, IsOrder, IndexOf;
    var s := Encoding(r, [k]);
    EncodingCuts(r, [k]);
    FixedPartParses(r, s[FIXED..]);
    HeaderCuts([], [], Entry(k, v));
  }

  lemma NoCut(q: Text, meta: map<Text, Text>)
    requires LF !in q && CR !in q
    ensures DecodeMeta(q + [LF], meta) == None
  {
    assert q + [LF] == q + [LF] + [];
    IndexAfter(q, LF, []);
    assert (q + [LF])[..|q|] == q;
  }

  // ---------------------------------------------------------------- as the source runs them

  lemma OrderExtends(done: seq<Text>, seen: set<Text>, k: Text, meta: map<Text, Text>)
    requires IsOrder(done, seen) && seen <= meta.Keys && k in meta && k !in seen
    ensures IsOrder(done + [k], seen + {k}) && Within(done, meta) && Within(done + [k], meta)
    ensures MetaBytes(meta, done + [k]) == MetaBytes(meta, done) + Entry(k, meta[k])
  {
    assert Within(done, meta) && Within([k], meta);
    MetaBytesConcat(meta, done, [k]);
    assert MetaBytes(meta, [k]) == Entry(k, meta[k]) + [] == Entry(k, meta[k]) by { assert [k][1..] == []; }
  }

  /** Fills in the length fields, walking the metadata in any order; each sum wraps at 32 bits. */
  method CalculateLengths(r: Request) returns (r': Request)
    ensures r' == r.(headLength := HeadSize(r) % 0x1_0000_0000, bodyLength := |r.data| % 0x1_0000_0000)
    ensures HeadSize(r) + |r.data| < 0x1_0000_0000 ==> Sized(r')
  {
    hide Entry, IsOrder, SomeOrder, MetaBytes;
    var base := FIXED + |r.serviceName| + 1 + |r.methodName| + 1;
    var head := base % 0x1_0000_0000;
    var todo := r.meta.Keys;
    ghost var done: seq<Text> := [];
    NoKeys();
    NoBytes(r.meta);
    assert r.meta.Keys - todo == {};
    while todo != {}
      invariant todo <= r.meta.Keys && IsOrder(done, r.meta.Keys - todo)
      invariant Within(done, r.meta) && head == (base + |MetaBytes(r.meta, done)|) % 0x1_0000_0000
    {
      var k :| k in todo;
      OrderExtends(done, r.meta.Keys - todo, k, r.meta);
      EntryLength(k, r.meta[k]);
      WrappedSum(base + |MetaBytes(r.meta, done)|, |k| + 1 + |r.meta[k]| + 1);
      head := (head + (|k| + 1 + |r.meta[k]| + 1) % 0x1_0000_0000) % 0x1_0000_0000;
      assert r.meta.Keys - (todo - {k}) == (r.meta.Keys - todo) + {k};
      todo := todo - {k};
      done := done + [k];
    }
    assert r.meta.Keys - todo == r.meta.Keys;
    MetaSizeOf(r.meta, done);
    r' := r.(headLength := head, bodyLength := |r.data| % 0x1_0000_0000);
  }

  lemma WrappedSum(a: nat, b: nat)
    ensures (a % 0x1_0000_0000 + b % 0x1_0000_0000) % 0x1_0000_0000 == (a + b) % 0x1_0000_0000
  {
  }

  lemma NoKeys()
    ensures IsOrder([], {})
  {
  }

  lemma EntryLength(k: Text, v: Text)
    ensures |Entry(k, v)| == |k| + 1 + |v| + 1
  {
  }

  lemma OrderWithin(order: seq<Text>, keys: set<Text>, meta: map<Text, Text>)
    requires IsOrder(order, keys) && keys <= meta.Keys
    ensures Within(order, meta)
  {
  }

  lemma OrderConcat(a: seq<Text>, x: set<Text>, b: seq<Text>, y: set<Text>)
    requires IsOrder(a, x) && IsOrder(b, y) && x !! y
    ensures IsOrder(a + b, x + y)
  {
    forall i, j | 0 <= i < j < |a + b| ensures (a + b)[i] != (a + b)[j] {
      assert i < |a| ==> (a + b)[i] in x;
      assert j >= |a| ==> (a + b)[j] in y;
    }
  }

  /** What is left to write always fits the buffer, whichever key comes next. */
  lemma EntryFits(meta: map<Text, Text>, done: seq<Text>, todo: set<Text>, k: Text)
    requires todo <= meta.Keys && IsOrder(done, meta.Keys - todo) && k in todo
    ensures Within(done + [k], meta) && |MetaBytes(meta, done + [k])| <= MetaSize(meta)
  {
    hide MetaBytes, Entry, SomeOrder, MetaSize, IsOrder;
    var rest := SomeOrder(todo - {k});
    assert Within(rest, meta) by { OrderWithin(rest, todo - {k}, meta); }
    OrderExtends(done, meta.Keys - todo, k, meta);
    MetaBytesConcat(meta, done + [k], rest);
    OrderConcat(done + [k], meta.Keys - todo + {k}, rest, todo - {k});
    assert (meta.Keys - todo + {k}) + (todo - {k}) == meta.Keys;
    MetaSizeOf(meta, done + [k] + rest);
  }

  /** The fixed part and the names; the slices panic when the buffer is too short for them. */
  method WritePrefix(buf: array<byte>, r: Request) returns (ok: bool, at: nat)
    modifies buf
    ensures ok <==> FIXED + |Names(r)| <= buf.Length
    ensures ok ==> at == FIXED + |Names(r)| && buf[..at] == FixedPart(r) + Names(r)
    ensures ok ==> forall i :: at <= i < buf.Length ==> buf[i] == old(buf[i])
  {
    hide FixedPart;
    if buf.Length < FIXED { return false, 0; }
    at := WriteFixed(buf, r);
    if at + |r.serviceName| + 1 > buf.Length { return false, at; }
    at := Append(buf, at, r.serviceName);
    at := Append(buf, at, [LF]);
    if at + |r.methodName| + 1 > buf.Length { return false, at; }
    at := Append(buf, at, r.methodName);
    at := Append(buf, at, [LF]);
    assert buf[..at] == FixedPart(r) + Names(r);
    ok := true;
  }

  method WriteFixed(buf: array<byte>, r: Request) returns (at: nat)
    requires buf.Length >= FIXED
    modifies buf
    ensures at == FIXED && buf[..at] == FixedPart(r) && forall i :: at <= i < buf.Length ==> buf[i] == old(buf[i])
  {
    hide Put;
    at := Append(buf, 0, Put(r.headLength, 4));
    at := Append(buf, at, Put(r.bodyLength, 4));
    at := Append(buf, at, Put(r.messageID, 4));
    at := Append(buf, at, [r.version, r.compressor, r.serializer]);
    assert buf[..at] == FixedPart(r);
  }

  /** Writes the metadata in whatever order the keys come; a buffer too short for it panics on the way. */
  method WriteMeta(buf: array<byte>, start: nat, meta: map<Text, Text>)
    returns (ok: bool, at: nat, ghost order: seq<Text>)
    requires start <= buf.Length
    modifies buf
    ensures ok <==> start + MetaSize(meta) <= buf.Length
    ensures ok ==> IsOrder(order, meta.Keys) && at == start + MetaSize(meta)
    ensures ok ==> buf[..at] == old(buf[..start]) + MetaBytes(meta, order)
    ensures ok ==> forall i :: at <= i < buf.Length ==> buf[i] == old(buf[i])
  {
    hide MetaBytes, IsOrder, SomeOrder, MetaSize, Entry;
    ghost var prefix := buf[..start];
    var todo := meta.Keys;
    at, order := start, [];
    NoKeys();
    NoBytes(meta);
    assert meta.Keys - todo == {};
    while todo != {}
      invariant todo <= meta.Keys && IsOrder(order, meta.Keys - todo) && Within(order, meta)
      invariant at == start + |MetaBytes(meta, order)| <= buf.Length && buf[..at] == prefix + MetaBytes(meta, order)
      invariant forall i :: at <= i < buf.Length ==> buf[i] == old(buf[i])
    {
      var k :| k in todo;
      EntryFits(meta, order, todo, k);
      OrderExtends(order, meta.Keys - todo, k, meta);
      EntryLength(k, meta[k]);
      if at + |k| + 1 + |meta[k]| + 1 > buf.Length { return false, at, order; }
      at := WriteEntry(buf, at, k, meta[k]);
      assert meta.Keys - (todo - {k}) == (meta.Keys - todo) + {k};
      todo := todo - {k};
      order := order + [k];
    }
    assert meta.Keys - todo == meta.Keys;
    MetaSizeOf(meta, order);
    ok := true;
  }

  /** The buffer that is allocated: the sum of the two length fields, wrapping at 32 bits. */
  function BufferSize(r: Request): nat {
    (r.headLength + r.bodyLength) % 0x1_0000_0000
  }

  /** What follows the header: as much of the data as fits, then zeros; zeros alone when the body length is 0. */
  function Tail(data: seq<byte>, bodyLength: nat, room: nat): (t: seq<byte>)
    ensures |t| == room
  {
    seq(room, i => if bodyLength > 0 && 0 <= i < |data| then data[i] else 0)
  }

  ghost function Written(r: Request, order: seq<Text>): seq<byte>
    requires IsOrder(order, r.meta.Keys) && HeadSize(r) <= BufferSize(r)
  {
    FixedPart(r) + Names(r) + MetaBytes(r.meta, order) + Tail(r.data, r.bodyLength, BufferSize(r) - HeadSize(r))
  }

  /**
   Encodes into one buffer, walking the metadata in any order, whatever the length fields say.
   None is the panic: it comes exactly when the buffer is shorter than the real header.
   */
  method EncodeRequest(r: Request) returns (bs: Option<seq<byte>>)
    ensures bs.None? <==> BufferSize(r) < HeadSize(r)
    ensures bs.Some? ==> exists order :: IsOrder(order, r.meta.Keys) && bs.value == Written(r, order)
  {
    hide MetaBytes, SomeOrder, MetaSize, FixedPart, IsOrder, Names, Tail;
    NamesSize(r);
    var buf := new byte[BufferSize(r)](_ => 0);
    var ok, at := WritePrefix(buf, r);
    if !ok { return None; }
    ghost var order;
    ok, at, order := WriteMeta(buf, at, r.meta);
    if !ok { return None; }
    ghost var head := buf[..at];
    WriteData(buf, at, r.data, r.bodyLength);
    assert buf[..] == buf[..at] + buf[at..];
    assert buf[..] == Written(r, order);
    bs := Some(buf[..]);
  }

  lemma NamesSize(r: Request)
    ensures |Names(r)| == |r.serviceName| + 1 + |r.methodName| + 1
  {
  }

  /** As much of the data as fits is copied, into a part of the buffer that is still zero. */
  method WriteData(buf: array<byte>, at: nat, data: seq<byte>, bodyLength: nat)
    requires at <= buf.Length && forall i :: at <= i < buf.Length ==> buf[i] == 0
    modifies buf
    ensures buf[..at] == old(buf[..at]) && buf[at..] == Tail(data, bodyLength, buf.Length - at)
    ensures forall i :: at <= i < buf.Length ==>
              buf[i] == if bodyLength > 0 && i - at < |data| then data[i - at] else 0
  {
    var room := buf.Length - at;
    if bodyLength > 0 {
      var n := if |data| < room then |data| else room;
      CopyInto(buf, at, data[..n]);
      assert forall i :: 0 <= i < n ==> buf[at..at + n][i] == data[i];
    }
    assert buf[..at] == old(buf[..at]);
    assert buf[at..] == Tail(data, bodyLength, room);
  }

  /** With the calculated lengths that is the encoding. */
  lemma WrittenIsEncoding(r: Request, order: seq<Text>)
    requires Sized(r) && IsOrder(order, r.meta.Keys)
    ensures HeadSize(r) <= BufferSize(r) && Written(r, order) == Encoding(r, order)
  {
    hide FixedPart, Names, MetaBytes, IsOrder, MetaSize;
    assert Tail(r.data, r.bodyLength, |r.data|) == r.data;
  }

  const TWO32 := 0x1_0000_0000

  /** A request with calculated lengths, which wrap at 32 bits. */
  ghost function Calculated(r: Request): Request {
    r.(headLength := HeadSize(r) % TWO32, bodyLength := |r.data| % TWO32)
  }

  /** The bytes of the data that the body length counts. */
  ghost function Counted(r: Request): Request {
    Calculated(r).(data := r.data[..|r.data| % TWO32])
  }

  lemma SumOfWrapped(h: nat, b: nat)
    ensures (h % TWO32 + b % TWO32) % TWO32 >= h <==> h + b % TWO32 < TWO32
    ensures h + b % TWO32 < TWO32 ==> (h % TWO32 + b % TWO32) % TWO32 == h + b % TWO32
  {
  }

  /** Without a panic the data is cut to the length that was counted. */
  lemma WrittenIsCut(r: Request, order: seq<Text>)
    requires IsOrder(order, r.meta.Keys) && HeadSize(r) + |r.data| % TWO32 < TWO32
    ensures var c := Calculated(r);
            && Sized(Counted(r)) && HeadSize(c) <= BufferSize(c) && IsOrder(order, Counted(r).meta.Keys)
            && Written(c, order) == Encoding(Counted(r), order)
  {
    var n, c := |r.data| % TWO32, Calculated(r);
    SumOfWrapped(HeadSize(r), |r.data|);
    HeadIsThatOf(r);
    hide Names, MetaBytes, IsOrder, MetaSize, FixedPart, HeadSize, Tail;
    SameHead(c, r.data[..n]);
    TailCuts(r.data, n);
  }

  lemma HeadIsThatOf(r: Request)
    ensures HeadSize(Calculated(r)) == HeadSize(r) && HeadSize(Counted(r)) == HeadSize(r)
  {
    hide MetaSize;
  }

  /** The header does not depend on the data. */
  lemma SameHead(r: Request, data: seq<byte>)
    ensures var r' := r.(data := data); FixedPart(r') == FixedPart(r) && Names(r') == Names(r)
  {
  }

  lemma TailCuts(data: seq<byte>, n: nat)
    requires n <= |data|
    ensures Tail(data, n, n) == data[..n]
  {
  }

  /**
   From any request to what the other side decodes. The encoder panics exactly when the header
   and the counted part of the data pass 2^32 bytes. Otherwise the other side gets the request
   with the data cut to the counted part if names and metadata are clean, and so the request
   itself if and only if besides the data is shorter than 2^32 bytes.
   */
  lemma CalculatedRoundTripExactly(r: Request, order: seq<Text>)
    requires IsOrder(order, r.meta.Keys)
    ensures var c := Calculated(r);
            && (BufferSize(c) < HeadSize(c) <==> HeadSize(r) + |r.data| % TWO32 >= TWO32)
            && (HeadSize(r) + |r.data| % TWO32 < TWO32 ==>
                  && IsOrder(order, c.meta.Keys) && HeadSize(c) <= BufferSize(c)
                  && (Decode(Written(c, order)) == Some(Counted(r)) <==> Clean(r))
                  && (Decode(Written(c, order)) == Some(c) <==> Clean(r) && |r.data| < TWO32))
  {
    PanicsExactly(r);
    hide Calculated, Counted, HeadSize, BufferSize, Sized, IsOrder, Clean, Decode, Encoding, Written;
    if HeadSize(r) + |r.data| % TWO32 < TWO32 {
      WrittenIsCut(r, order);
      RoundTripExactly(Counted(r), order);
      CountedIs(r);
      CutIsShorter(r, order);
    }
  }

  lemma PanicsExactly(r: Request)
    ensures BufferSize(Calculated(r)) < HeadSize(Calculated(r)) <==> HeadSize(r) + |r.data| % TWO32 >= TWO32
    ensures Calculated(r).meta == r.meta
  {
    SumOfWrapped(HeadSize(r), |r.data|);
    hide MetaSize;
  }

  lemma CountedIs(r: Request)
    ensures Clean(Counted(r)) <==> Clean(r)
    ensures |r.data| < TWO32 ==> Counted(r) == Calculated(r)
  {
    hide HeadSize;
    assert |r.data| < TWO32 ==> r.data[..|r.data| % TWO32] == r.data;
  }

  /** What is decoded never has more data than was counted. */
  lemma CutIsShorter(r: Request, order: seq<Text>)
    requires IsOrder(order, r.meta.Keys) && HeadSize(r) + |r.data| % TWO32 < TWO32
    ensures Decode(Encoding(Counted(r), order)) == Some(Calculated(r)) ==> |r.data| < TWO32 && Clean(r)
  {
    var c := Counted(r);
    assert Sized(c);
    EncodingCuts(c, order);
    FixedPartParses(c, Encoding(c, order)[FIXED..]);
    hide FixedPart, Names, MetaBytes, IsOrder, MetaSize, Encoding, DecodeMeta, IndexOf, Get32;
    if Decode(Encoding(c, order)) == Some(Calculated(r)) {
      DecodedIsClean(Encoding(c, order));
      assert |Calculated(r).data| <= c.bodyLength;
    }
  }

  /** Calculating the lengths and encoding, one after the other. */
  method CalculateAndEncode(r: Request) returns (bs: Option<seq<byte>>)
    ensures bs.None? <==> HeadSize(r) + |r.data| % TWO32 >= TWO32
    ensures bs.Some? ==> (Decode(bs.value) == Some(Counted(r)) <==> Clean(r))
  {
    var c := CalculateLengths(r);
    bs := EncodeRequest(c);
    ghost var any := SomeOrder(r.meta.Keys);
    CalculatedRoundTripExactly(r, any);
    hide FixedPart, Names, MetaBytes, IsOrder, MetaSize, Decode, Written;
    if bs.Some? {
      ghost var order :| IsOrder(order, c.meta.Keys) && bs.value == Written(c, order);
      CalculatedRoundTripExactly(r, order);
    }
  }

  lemma NoBytes(meta: map<Text, Text>)
    ensures Within([], meta) && MetaBytes(meta, []) == []
  {
  }

  method WriteEntry(buf: array<byte>, at: nat, k: Text, v: Text) returns (next: nat)
    requires at + |Entry(k, v)| <= buf.Length
    modifies buf
    ensures next == at + |Entry(k, v)| && buf[..next] == old(buf[..at]) + Entry(k, v)
    ensures forall i :: next <= i < buf.Length ==> buf[i] == old(buf[i])
  {
    next := Append(buf, at, k);
    next := Append(buf, next, [CR]);
    next := Append(buf, next, v);
    next := Append(buf, next, [LF]);
  }

  /** The decoding loop shortens the header entry by entry. */
  method DecodeMetaLoop(header: seq<byte>) returns (r: Option<map<Text, Text>>)
    ensures r == DecodeMeta(header, map[])
  {
    var h, meta: map<Text, Text> := header, map[];
    var index := IndexOf(h, LF);
    while index >= 0
      invariant index == IndexOf(h, LF) && DecodeMeta(h, meta) == DecodeMeta(header, map[])
      decreases |h|
    {
      var cut := IndexOf(h[..index], CR);
      if cut < 0 { return None; }
      meta := meta[h[..cut] := h[cut + 1..index]];
      h := h[index + 1..];
      index := IndexOf(h, LF);
    }
    r := Some(meta);
  }

  method DecodeRequest(s: seq<byte>) returns (r: Option<Request>)
    ensures r == Decode(s)
  {
    hide IndexOf, DecodeMeta, Get32;
    if |s| < FIXED { return None; }
    var head, body, id := Get32(s[0..4]), Get32(s[4..8]), Get32(s[8..12]);
    if head < FIXED || head > |s| { return None; }
    var h := s[FIXED..head];
    var index := IndexOf(h, LF);
    if index < 0 { return None; }
    var serviceName := h[..index];
    h := h[index + 1..];
    index := IndexOf(h, LF);
    if index < 0 { return None; }
    var methodName := h[..index];
    h := h[index + 1..];
    var meta := DecodeMetaLoop(h);
    if meta.None? { return None; }
    r := Some(Request(head, body, id, s[12], s[13], s[14], serviceName, methodName, meta.value,
                      if body > 0 then s[head..] else []));
  }
}
