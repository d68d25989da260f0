/**
 The label scripts/compose-up.py puts on a service: a hash over what each of its
 read-only mounts holds. The byte streams fed to the hash are read back here, so
 that equal labels mean the same mounts with the same contents, as far as the
 hash itself does not collide.
 */
module InputHash {
  import opened Options
  import opened Text

  type Bytes = seq<int>

  const NUL := 0
  const NEWLINE := 10
  const SLASH := 47
  const F := 102  // 'f'
  const L := 108  // 'l'
  const DIGEST := 32

  predicate Octets(s: Bytes) { forall i :: 0 <= i < |s| ==> 0 <= s[i] < 256 }

  // --------------------------------------------------- one mount's stream

  /** What the stream says of a file or a link. */
  datatype Entry = FileEntry(rel: Bytes, digest: Bytes) | LinkEntry(rel: Bytes, target: Bytes)

  /** A path or a link's target holds no NUL, and a digest has its length. */
  predicate ValidEntry(e: Entry)
  {
    NUL !in e.rel && (e.FileEntry? ==> |e.digest| == DIGEST) && (e.LinkEntry? ==> NUL !in e.target)
  }

  function Encode(e: Entry): Bytes
  {
    match e
    case FileEntry(rel, digest) => [F, NUL] + rel + [NUL] + digest
    case LinkEntry(rel, target) => [L, NUL] + rel + [NUL] + target + [NUL]
  }

  function EncodeAll(es: seq<Entry>): Bytes
  {
    if es == [] then [] else Encode(es[0]) + EncodeAll(es[1..])
  }

  /** What stands in front of the first `c`, and what behind it. */
  function TakeField(s: Bytes, c: int): Option<(Bytes, Bytes)>
  {
    var j := Find(s, c);
    if j == |s| then None else Some((s[..j], s[j + 1..]))
  }

  lemma TakesField(a: Bytes, c: int, b: Bytes)
    requires c !in a
    ensures TakeField(a + [c] + b, c) == Some((a, b))
  {
    FindAppend(a, b, c);
    var s := a + [c] + b;
    assert s[..|a|] == a && s[|a| + 1..] == b;
  }

  /** The rest of an entry whose kind and path have been read. */
  function DecodeRest(kind: int, rel: Bytes, tail: Bytes): Option<(Entry, Bytes)>
  {
    if kind == F then
      if |tail| < DIGEST then None else Some((FileEntry(rel, tail[..DIGEST]), tail[DIGEST..]))
    else if kind == L then
      match TakeField(tail, NUL)
      case None => None
      case Some((target, rest)) => Some((LinkEntry(rel, target), rest))
    else None
  }

  /** One entry off the front of a stream, and the rest. */
  function DecodeOne(s: Bytes): Option<(Entry, Bytes)>
  {
    if |s| < 2 || s[1] != NUL then None else
    match TakeField(s[2..], NUL)
    case None => None
    case Some((rel, tail)) => DecodeRest(s[0], rel, tail)
  }

  lemma DecodesKind(kind: int, rel: Bytes, tail: Bytes)
    requires NUL !in rel
    ensures DecodeOne([kind, NUL] + rel + [NUL] + tail) == DecodeRest(kind, rel, tail)
  {
    var s := [kind, NUL] + rel + [NUL] + tail;
    assert s[2..] == rel + [NUL] + tail;
    TakesField(rel, NUL, tail);
  }

  lemma DecodesOne(e: Entry, rest: Bytes)
    requires ValidEntry(e)
    ensures DecodeOne(Encode(e) + rest) == Some((e, rest))
  {
    match e
    case FileEntry(rel, digest) =>
      var tail := digest + rest;
      assert Encode(e) + rest == [F, NUL] + rel + [NUL] + tail;
      DecodesKind(F, rel, tail);
      assert tail[..DIGEST] == digest && tail[DIGEST..] == rest;
    case LinkEntry(rel, target) =>
      var tail := target + [NUL] + rest;
      assert Encode(e) + rest == [L, NUL] + rel + [NUL] + tail;
      DecodesKind(L, rel, tail);
      TakesField(target, NUL, rest);
  }

  lemma EncodeNonEmpty(es: seq<Entry>)
    ensures EncodeAll(es) == [] <==> es == []
  {
    if es != [] {
      assert |Encode(es[0])| > 0;
    }
  }

  /** The stream of a list is uniquely decodable: two lists with one stream are
      one list. */
  lemma {:induction false} StreamTells(a: seq<Entry>, b: seq<Entry>)
    requires forall e :: e in a ==> ValidEntry(e)
    requires forall e :: e in b ==> ValidEntry(e)
    requires EncodeAll(a) == EncodeAll(b)
    ensures a == b
    decreases |a|
  {
    EncodeNonEmpty(a);
    EncodeNonEmpty(b);
    if a != [] {
      assert a[0] in a && b[0] in b;
      DecodesOne(a[0], EncodeAll(a[1..]));
      DecodesOne(b[0], EncodeAll(b[1..]));
      StreamTells(a[1..], b[1..]);
      assert a == [a[0]] + a[1..] && b == [b[0]] + b[1..];
    }
  }

  // ------------------------------------------------------------- hash_tar

  datatype Kind = Regular(content: Bytes) | Symlink(target: Bytes) | Otherwise

  datatype Member = Member(name: Bytes, kind: Kind)

  /** The name with its first component stripped; "" when it has one only. */
  function Relative(name: Bytes): Bytes
  {
    var j := Find(name, SLASH);
    if j == |name| then [] else name[j + 1..]
  }

  /** The last component. */
  function Base(name: Bytes): Bytes
  {
    if SLASH !in name then name else
    var j := Find(name, SLASH);
    if j == |name| then [] else Base(name[j + 1..])
  }

  const TMP: Bytes := [46, 116, 109, 112, 46]                        // ".tmp."
  const PARTIAL: Bytes := [46, 112, 97, 114, 116, 105, 97, 108]      // ".partial"

  predicate Skipped(name: Bytes)
  {
    var base := Base(name);
    || (exists k :: 0 <= k <= |base| && TMP <= base[k..])
    || (|base| >= |PARTIAL| && base[|base| - |PARTIAL|..] == PARTIAL)
  }

  /** What a member of the archive adds to the stream. */
  function EntryOf(h: Bytes -> Bytes, m: Member): seq<Entry>
  {
    if Skipped(m.name) then [] else
    match m.kind
    case Regular(content) => [FileEntry(Relative(m.name), h(content))]
    case Symlink(target) => [LinkEntry(Relative(m.name), target)]
    case Otherwise => []
  }

  function EntriesOf(h: Bytes -> Bytes, ms: seq<Member>): seq<Entry>
  {
    if ms == [] then [] else EntriesOf(h, ms[..|ms| - 1]) + EntryOf(h, ms[|ms| - 1])
  }

  lemma {:induction false} EncodeAppend(a: seq<Entry>, b: seq<Entry>)
    ensures EncodeAll(a + b) == EncodeAll(a) + EncodeAll(b)
  {
    if a == [] {
      assert a + b == b;
    } else {
      assert (a + b)[1..] == a[1..] + b;
      EncodeAppend(a[1..], b);
    }
  }

  /** What one member adds to the stream. */
  function Fed(h: Bytes -> Bytes, m: Member): Bytes
  {
    if Skipped(m.name) || m.kind.Otherwise? then [] else Encode(EntryOf(h, m)[0])
  }

  lemma StreamStep(h: Bytes -> Bytes, ms: seq<Member>, i: nat)
    requires i < |ms|
    ensures EncodeAll(EntriesOf(h, ms[..i + 1])) == EncodeAll(EntriesOf(h, ms[..i])) + Fed(h, ms[i])
  {
    assert ms[..i + 1][..i] == ms[..i];
    EncodeAppend(EntriesOf(h, ms[..i]), EntryOf(h, ms[i]));
    var es := EntryOf(h, ms[i]);
    if es != [] {
      assert EncodeAll(es) == Encode(es[0]) + EncodeAll(es[1..]);
    }
  }

  /** hash_tar: the running hash is its input so far. The members come sorted
      by name. */
  method HashTar(h: Bytes -> Bytes, ms: seq<Member>) returns (digest: Bytes)
    ensures digest == h(EncodeAll(EntriesOf(h, ms)))
  {
    var fed: Bytes := [];
    for i := 0 to |ms|
      invariant fed == EncodeAll(EntriesOf(h, ms[..i]))
    {
      var m := ms[i];
      StreamStep(h, ms, i);
      if Skipped(m.name) {
        continue;
      }
      match m.kind
      case Regular(content) => fed := fed + ([F, NUL] + Relative(m.name) + [NUL] + h(content));
      case Symlink(target) => fed := fed + ([L, NUL] + Relative(m.name) + [NUL] + target + [NUL]);
      case Otherwise =>
    }
    assert ms[..|ms|] == ms;
    digest := h(fed);
  }

  // ----------------------------------------------------- hexadecimal digests

  function HexDigit(n: int): int
    requires 0 <= n < 16
  {
    if n < 10 then 48 + n else 87 + n
  }

  function Hex(d: Bytes): Bytes
    requires Octets(d)
  {
    if d == [] then [] else [HexDigit(d[0] / 16), HexDigit(d[0] % 16)] + Hex(d[1..])
  }

  lemma {:induction false} HexText(d: Bytes)
    requires Octets(d)
    ensures |Hex(d)| == 2 * |d| && NUL !in Hex(d) && NEWLINE !in Hex(d)
  {
    if d != [] {
      HexText(d[1..]);
    }
  }

  lemma {:induction false} HexTells(a: Bytes, b: Bytes)
    requires Octets(a) && Octets(b) && Hex(a) == Hex(b)
    ensures a == b
  {
    HexText(a);
    HexText(b);
    if a != [] {
      assert Hex(a)[0] == Hex(b)[0] && Hex(a)[1] == Hex(b)[1];
      assert a[0] == 16 * (a[0] / 16) + a[0] % 16 && b[0] == 16 * (b[0] / 16) + b[0] % 16;
      assert Hex(a)[2..] == Hex(a[1..]) && Hex(b)[2..] == Hex(b[1..]);
      HexTells(a[1..], b[1..]);
      assert a == [a[0]] + a[1..] && b == [b[0]] + b[1..];
    }
  }

  // ------------------------------------------------------- a service's label

  datatype Item = FileItem(rel: Bytes, content: Bytes) | LinkItem(rel: Bytes, target: Bytes)

  /** What a mount holds: a tree, a single file mounted as such, or a volume no
      container could be found to read. */
  datatype Source = Tree(items: seq<Item>) | Single(content: Bytes) | Unread

  datatype Mount = Mount(volume: bool, target: Bytes, source: Source)

  const VOLUME: Bytes := [118, 111, 108, 117, 109, 101]  // "volume"
  const BIND: Bytes := [98, 105, 110, 100]               // "bind"
  const UNREAD: Bytes := [117, 110, 114, 101, 97, 100]   // "unread"

  /** A hash's digests are 32 octets. */
  ghost predicate Digests(h: Bytes -> Bytes)
  {
    forall x :: |h(x)| == DIGEST && Octets(h(x))
  }

  /** No two of these inputs have one digest. */
  ghost predicate NoCollision(h: Bytes -> Bytes, s: set<Bytes>)
  {
    forall x, y {:trigger h(x), h(y)} :: x in s && y in s && h(x) == h(y) ==> x == y
  }

  function ItemEntry(h: Bytes -> Bytes, it: Item): Entry
  {
    match it
    case FileItem(rel, content) => FileEntry(rel, h(content))
    case LinkItem(rel, target) => LinkEntry(rel, target)
  }

  function Entries(h: Bytes -> Bytes, items: seq<Item>): (es: seq<Entry>)
    ensures |es| == |items| && forall i :: 0 <= i < |items| ==> es[i] == ItemEntry(h, items[i])
  {
    seq(|items|, i requires 0 <= i < |items| => ItemEntry(h, items[i]))
  }

  predicate ValidItem(it: Item)
  {
    NUL !in it.rel && (it.LinkItem? ==> NUL !in it.target)
  }

  predicate ValidItems(items: seq<Item>)
  {
    forall it :: it in items ==> ValidItem(it)
  }

  predicate ValidMount(m: Mount)
  {
    NUL !in m.target && (m.source.Tree? ==> ValidItems(m.source.items))
  }

  /** The bytes hash_tar or hash_path feeds for a mount. */
  function Stream(h: Bytes -> Bytes, s: Source): Bytes
  {
    match s
    case Tree(items) => EncodeAll(Entries(h, items))
    case Single(content) => h(content)
    case Unread => []
  }

  ghost function Value(h: Bytes -> Bytes, s: Source): Bytes
    requires Digests(h)
  {
    if s.Unread? then UNREAD else Hex(h(Stream(h, s)))
  }

  ghost function Line(h: Bytes -> Bytes, m: Mount): Bytes
    requires Digests(h)
  {
    (if m.volume then VOLUME else BIND) + [NUL] + (m.target + [NUL] + (Value(h, m.source) + [NEWLINE]))
  }

  ghost function LabelStream(h: Bytes -> Bytes, ms: seq<Mount>): Bytes
    requires Digests(h)
  {
    if ms == [] then [] else Line(h, ms[0]) + LabelStream(h, ms[1..])
  }

  /** Everything the hash is applied to for a mount. */
  function Hashed(h: Bytes -> Bytes, s: Source): set<Bytes>
  {
    match s
    case Tree(items) => {Stream(h, s)} + set i | 0 <= i < |items| && items[i].FileItem? :: items[i].content
    case Single(content) => {content, h(content)}
    case Unread => {}
  }

  function HashedAll(h: Bytes -> Bytes, ms: seq<Mount>): set<Bytes>
  {
    set i, x | 0 <= i < |ms| && x in Hashed(h, ms[i].source) :: x
  }

  /** The one case two sources may share a value: a single file whose digest is,
      byte for byte, a tree's whole stream. */
  predicate Coincides(h: Bytes -> Bytes, a: Source, b: Source)
  {
    a.Single? && b.Tree? && Stream(h, b) == h(a.content)
  }

  predicate SameSource(h: Bytes -> Bytes, a: Source, b: Source)
  {
    a == b || Coincides(h, a, b) || Coincides(h, b, a)
  }

  lemma FieldsTell(a: Bytes, b: Bytes, c: int, a': Bytes, b': Bytes)
    requires c !in a && c !in a' && a + [c] + b == a' + [c] + b'
    ensures a == a' && b == b'
  {
    TakesField(a, c, b);
    TakesField(a', c, b');
  }

  lemma ValueText(h: Bytes -> Bytes, s: Source)
    requires Digests(h)
    ensures NEWLINE !in Value(h, s) && |Value(h, s)| == if s.Unread? then 6 else 64
  {
    if !s.Unread? {
      HexText(h(Stream(h, s)));
    }
  }

  lemma TreeTells(h: Bytes -> Bytes, a: seq<Item>, b: seq<Item>)
    requires Digests(h) && NoCollision(h, Hashed(h, Tree(a)) + Hashed(h, Tree(b)))
    requires ValidItems(a) && ValidItems(b)
    requires Stream(h, Tree(a)) == Stream(h, Tree(b))
    ensures a == b
  {
    var ea, eb := Entries(h, a), Entries(h, b);
    EntriesValid(h, a);
    EntriesValid(h, b);
    StreamTells(ea, eb);
    forall i | 0 <= i < |a|
      ensures a[i] == b[i]
    {
      assert ea[i] == eb[i];
      if a[i].FileItem? {
        assert a[i].content in Hashed(h, Tree(a)) && b[i].content in Hashed(h, Tree(b));
      }
    }
  }

  lemma EntriesValid(h: Bytes -> Bytes, items: seq<Item>)
    requires Digests(h) && ValidItems(items)
    ensures forall e :: e in Entries(h, items) ==> ValidEntry(e)
  {
    forall e | e in Entries(h, items)
      ensures ValidEntry(e)
    {
      var i :| 0 <= i < |items| && Entries(h, items)[i] == e;
      assert items[i] in items;
    }
  }

  /** What hash_tar keeps of an archive: the files and links it does not skip,
      under their stripped names. */
  function KeptOf(m: Member): seq<Item>
  {
    if Skipped(m.name) then [] else
    match m.kind
    case Regular(content) => [FileItem(Relative(m.name), content)]
    case Symlink(target) => [LinkItem(Relative(m.name), target)]
    case Otherwise => []
  }

  function Kept(ms: seq<Member>): seq<Item>
  {
    if ms == [] then [] else Kept(ms[..|ms| - 1]) + KeptOf(ms[|ms| - 1])
  }

  lemma {:induction false} TarIsTree(h: Bytes -> Bytes, ms: seq<Member>)
    ensures EntriesOf(h, ms) == Entries(h, Kept(ms))
  {
    if ms != [] {
      var front, m := ms[..|ms| - 1], ms[|ms| - 1];
      TarIsTree(h, front);
      assert EntryOf(h, m) == Entries(h, KeptOf(m));
      assert Entries(h, Kept(front) + KeptOf(m)) == Entries(h, Kept(front)) + Entries(h, KeptOf(m));
    }
  }

  /** Two archives with one digest keep the same files and links, in the same
      order, with the same contents. */
  lemma TarTells(h: Bytes -> Bytes, a: seq<Member>, b: seq<Member>)
    requires Digests(h) && NoCollision(h, Hashed(h, Tree(Kept(a))) + Hashed(h, Tree(Kept(b))))
    requires ValidItems(Kept(a)) && ValidItems(Kept(b))
    requires h(EncodeAll(EntriesOf(h, a))) == h(EncodeAll(EntriesOf(h, b)))
    ensures Kept(a) == Kept(b)
  {
    TarIsTree(h, a);
    TarIsTree(h, b);
    var sa, sb := Stream(h, Tree(Kept(a))), Stream(h, Tree(Kept(b)));
    assert sa in Hashed(h, Tree(Kept(a))) && sb in Hashed(h, Tree(Kept(b)));
    TreeTells(h, Kept(a), Kept(b));
  }

  lemma SecondSlash(dir: Bytes, base: Bytes, j: nat)
    requires j == Find(dir + [SLASH] + base, SLASH)
    ensures j < |dir| ==> (dir + [SLASH] + base)[j + 1..] == dir[j + 1..] + [SLASH] + base
    ensures j >= |dir| ==> j == |dir| && (dir + [SLASH] + base)[j + 1..] == base
  {
    assert (dir + [SLASH] + base)[|dir|] == SLASH;
  }

  lemma BaseStep(name: Bytes)
    requires Find(name, SLASH) < |name|
    ensures Base(name) == Base(name[Find(name, SLASH) + 1..])
  {
  }

  lemma {:induction false} BaseIs(dir: Bytes, base: Bytes)
    requires SLASH !in base
    ensures Base(dir + [SLASH] + base) == base
    decreases |dir|
  {
    var j := Find(dir + [SLASH] + base, SLASH);
    SecondSlash(dir, base, j);
    BaseStep(dir + [SLASH] + base);
    if j < |dir| {
      BaseIs(dir[j + 1..], base);
    }
  }

  /** Exactly the files whose own name holds ".tmp." or ends in ".partial" are
      passed over. */
  lemma SkippedIff(dir: Bytes, base: Bytes)
    requires SLASH !in base
    ensures Skipped(dir + [SLASH] + base) <==>
            || (exists k :: 0 <= k <= |base| && [46, 116, 109, 112, 46] <= base[k..])
            || (exists front :: base == front + [46, 112, 97, 114, 116, 105, 97, 108])
  {
    BaseIs(dir, base);
    var n := |base| - |PARTIAL|;
    if n >= 0 && base[n..] == PARTIAL {
      assert base == base[..n] + PARTIAL;
    }
  }

  lemma RelativeIs(first: Bytes, rest: Bytes)
    requires SLASH !in first
    ensures Relative(first + [SLASH] + rest) == rest
  {
    var name := first + [SLASH] + rest;
    assert name[|first|] == SLASH && forall i :: 0 <= i < |first| ==> name[i] == first[i];
    assert Find(name, SLASH) == |first|;
  }

  lemma InEither(a: seq<Item>, b: seq<Item>, x: Item)
    ensures x in a + b <==> x in a || x in b
  {
  }

  lemma {:induction false} KeptAt(ms: seq<Member>, x: Item)
    ensures x in Kept(ms) <==> exists i :: 0 <= i < |ms| && x in KeptOf(ms[i])
  {
    if ms != [] {
      var n := |ms| - 1;
      KeptAt(ms[..n], x);
      InEither(Kept(ms[..n]), KeptOf(ms[n]), x);
      assert forall i :: 0 <= i < n ==> ms[..n][i] == ms[i];
    }
  }

  lemma NameSplits(name: Bytes)
    requires Relative(name) != []
    ensures exists f :: SLASH !in f && name == f + [SLASH] + Relative(name)
  {
    var k := Find(name, SLASH);
    assert name == name[..k] + [SLASH] + name[k + 1..] && SLASH !in name[..k];
  }

  lemma KeptAlso(a: seq<Member>, b: seq<Member>, i: nat) returns (j: nat)
    requires Kept(a) == Kept(b) && i < |a| && !Skipped(a[i].name) && !a[i].kind.Otherwise?
    ensures j < |b| && b[j].kind == a[i].kind && !Skipped(b[j].name) && Relative(b[j].name) == Relative(a[i].name)
  {
    var x := KeptOf(a[i])[0];
    KeptAt(a, x);
    KeptAt(b, x);
    j :| 0 <= j < |b| && x in KeptOf(b[j]);
  }

  /** A file or link of the one archive that is not passed over is in the other,
      under the same name below its first component, with the same contents. */
  lemma TarHas(h: Bytes -> Bytes, a: seq<Member>, b: seq<Member>, i: nat, first: Bytes, rest: Bytes) returns (j: nat)
    requires Digests(h) && NoCollision(h, Hashed(h, Tree(Kept(a))) + Hashed(h, Tree(Kept(b))))
    requires ValidItems(Kept(a)) && ValidItems(Kept(b))
    requires h(EncodeAll(EntriesOf(h, a))) == h(EncodeAll(EntriesOf(h, b)))
    requires i < |a| && !Skipped(a[i].name) && !a[i].kind.Otherwise?
    requires a[i].name == first + [SLASH] + rest && SLASH !in first && rest != []
    ensures j < |b| && b[j].kind == a[i].kind && !Skipped(b[j].name)
    ensures exists f :: SLASH !in f && b[j].name == f + [SLASH] + rest
  {
    TarTells(h, a, b);
    RelativeIs(first, rest);
    j := KeptAlso(a, b, i);
    NameSplits(b[j].name);
  }

  /** Equal values come from the same source, but for the one coincidence. */
  lemma ValueTells(h: Bytes -> Bytes, a: Mount, b: Mount)
    requires Digests(h) && ValidMount(a) && ValidMount(b)
    requires NoCollision(h, Hashed(h, a.source) + Hashed(h, b.source))
    requires Value(h, a.source) == Value(h, b.source)
    ensures SameSource(h, a.source, b.source)
  {
    var x, y := a.source, b.source;
    ValueText(h, x);
    ValueText(h, y);
    if !x.Unread? && !y.Unread? {
      HexTells(h(Stream(h, x)), h(Stream(h, y)));
      assert Stream(h, x) in Hashed(h, x) && Stream(h, y) in Hashed(h, y);
      assert Stream(h, x) == Stream(h, y);
      if x.Tree? && y.Tree? {
        TreeTells(h, x.items, y.items);
      } else if x.Single? && y.Single? {
        assert x.content in Hashed(h, x) && y.content in Hashed(h, y);
      }
    }
  }

  lemma LineTells(h: Bytes -> Bytes, a: Mount, ra: Bytes, b: Mount, rb: Bytes)
    requires Digests(h) && NUL !in a.target && NUL !in b.target
    requires Line(h, a) + ra == Line(h, b) + rb
    ensures a.volume == b.volume && a.target == b.target && Value(h, a.source) == Value(h, b.source) && ra == rb
  {
    var ka, kb := if a.volume then VOLUME else BIND, if b.volume then VOLUME else BIND;
    var va, vb := Value(h, a.source) + [NEWLINE] + ra, Value(h, b.source) + [NEWLINE] + rb;
    assert Line(h, a) + ra == ka + [NUL] + (a.target + [NUL] + va);
    assert Line(h, b) + rb == kb + [NUL] + (b.target + [NUL] + vb);
    FieldsTell(ka, a.target + [NUL] + va, NUL, kb, b.target + [NUL] + vb);
    FieldsTell(a.target, va, NUL, b.target, vb);
    ValueText(h, a.source);
    ValueText(h, b.source);
    FieldsTell(Value(h, a.source), ra, NEWLINE, Value(h, b.source), rb);
  }

  lemma HashedTail(h: Bytes -> Bytes, ms: seq<Mount>)
    requires ms != []
    ensures Hashed(h, ms[0].source) <= HashedAll(h, ms) && HashedAll(h, ms[1..]) <= HashedAll(h, ms)
  {
    forall x | x in HashedAll(h, ms[1..])
      ensures x in HashedAll(h, ms)
    {
      var i :| 0 <= i < |ms[1..]| && x in Hashed(h, ms[1..][i].source);
      assert ms[i + 1] == ms[1..][i];
    }
  }

  predicate SameMount(h: Bytes -> Bytes, a: Mount, b: Mount)
  {
    a.volume == b.volume && a.target == b.target && SameSource(h, a.source, b.source)
  }

  predicate SameMounts(h: Bytes -> Bytes, a: seq<Mount>, b: seq<Mount>)
  {
    |a| == |b| && forall i :: 0 <= i < |a| ==> SameMount(h, a[i], b[i])
  }

  predicate ValidMounts(ms: seq<Mount>)
  {
    forall m :: m in ms ==> ValidMount(m)
  }

  /** Nothing the hash was given for the two lists collides. */
  ghost predicate Hashable(h: Bytes -> Bytes, a: seq<Mount>, b: seq<Mount>)
  {
    Digests(h) && NoCollision(h, HashedAll(h, a) + HashedAll(h, b))
  }

  lemma HashableTails(h: Bytes -> Bytes, a: seq<Mount>, b: seq<Mount>)
    requires a != [] && b != [] && Hashable(h, a, b)
    ensures NoCollision(h, Hashed(h, a[0].source) + Hashed(h, b[0].source)) && Hashable(h, a[1..], b[1..])
  {
    HashedTail(h, a);
    HashedTail(h, b);
  }

  lemma SameMountsCons(h: Bytes -> Bytes, a: seq<Mount>, b: seq<Mount>)
    requires a != [] && b != [] && SameMount(h, a[0], b[0]) && SameMounts(h, a[1..], b[1..])
    ensures SameMounts(h, a, b)
  {
    forall i | 0 <= i < |a|
      ensures SameMount(h, a[i], b[i])
    {
      assert i > 0 ==> a[i] == a[1..][i - 1] && b[i] == b[1..][i - 1];
    }
  }

  lemma StreamEmpty(h: Bytes -> Bytes, ms: seq<Mount>)
    requires Digests(h)
    ensures LabelStream(h, ms) == [] <==> ms == []
  {
    assert ms != [] ==> |Line(h, ms[0])| > 0;
  }

  lemma {:induction false} LabelStreamTells(h: Bytes -> Bytes, a: seq<Mount>, b: seq<Mount>)
    requires Hashable(h, a, b) && ValidMounts(a) && ValidMounts(b)
    requires LabelStream(h, a) == LabelStream(h, b)
    ensures SameMounts(h, a, b)
    decreases |a|
  {
    StreamEmpty(h, a);
    StreamEmpty(h, b);
    if a != [] {
      assert a[0] in a && b[0] in b;
      LineTells(h, a[0], LabelStream(h, a[1..]), b[0], LabelStream(h, b[1..]));
      HashableTails(h, a, b);
      ValueTells(h, a[0], b[0]);
      LabelStreamTells(h, a[1..], b[1..]);
      SameMountsCons(h, a, b);
    }
  }

  /** Two services, or one service at two times, with one label read the same
      mounts, in the same order, at the same targets, with the same contents:
      for any label hash and content hash that do not collide on what they were
      given. */
  lemma LabelTells(short: Bytes -> Bytes, h: Bytes -> Bytes, a: seq<Mount>, b: seq<Mount>)
    requires Hashable(h, a, b) && ValidMounts(a) && ValidMounts(b)
    requires short(LabelStream(h, a)) == short(LabelStream(h, b)) ==> LabelStream(h, a) == LabelStream(h, b)
    ensures short(LabelStream(h, a)) == short(LabelStream(h, b)) ==> SameMounts(h, a, b)
  {
    if short(LabelStream(h, a)) == short(LabelStream(h, b)) {
      LabelStreamTells(h, a, b);
    }
  }
}


