/** The key splitter of the C++ insertion/lookup benchmark
    (benches/cpp/bench_cedar.cc).  Keys are '\n'-terminated byte strings.
    Insertion streams the key file through a fixed buffer, carrying an
    unterminated tail over to the next read; lookup splits a whole buffer.
    The external trie is a map from keys to ints; the key file is a
    sequence of chunks, each what one read would deliver. */
module BenchCedar {

  newtype byte = b: int | 0 <= b < 0x100

  type Key = seq<byte>

  /** The state of the external trie: the value stored under each key. */
  type Trie = map<Key, int>

  /** The option type of the query argument ("-" is None). */
  datatype Option<T> = None | Some(value: T)

  /** KEY_SEP */
  const Newline: byte := 10
  const Nul: byte := 0

  /** BUFFER_SIZE = 1 << 16 */
  const BufferSize: int := 0x1_0000

  /** At most this many bytes are in the buffer after a read: the last
      byte is kept for the sentinel. */
  const Room: int := BufferSize - 1

  /** What the trie's exact-match search returns for a key it does not hold. */
  const NoValue: int := -1

  // ---------------------------------------------------------------------
  // Splitting a byte stream into keys

  /** The '\n'-terminated keys of s, in order, without their separators:
      each '\n' closes the key made of the bytes since the previous one. */
  function Keys(s: seq<byte>): seq<Key>
  {
    if s == [] then []
    else
      var init := s[..|s| - 1];
      if s[|s| - 1] == Newline then Keys(init) + [Rest(init)] else Keys(init)
  }

  /** The unterminated tail of s that follows its last '\n'. */
  function Rest(s: seq<byte>): (r: seq<byte>)
    ensures |r| <= |s|
  {
    if s == [] then []
    else
      var init := s[..|s| - 1];
      if s[|s| - 1] == Newline then [] else Rest(init) + [s[|s| - 1]]
  }

  /** One more byte either closes a key or extends the tail. */
  lemma Snoc(x: seq<byte>, c: byte)
    ensures Keys(x + [c]) == if c == Newline then Keys(x) + [Rest(x)] else Keys(x)
    ensures Rest(x + [c]) == if c == Newline then [] else Rest(x) + [c]
  {
    assert (x + [c])[..|x|] == x;
  }

  // Proof hint: a sequence identity the solver needs spelled out at its call sites.
  lemma Last<T>(s: seq<T>)
    requires s != []
    ensures s == s[..|s| - 1] + [s[|s| - 1]]
  {
  }

  // Proof hint: a sequence identity the solver needs spelled out at its call sites.
  lemma PrefixSnoc(w: seq<byte>, q: nat)
    requires q < |w|
    ensures w[..q + 1] == w[..q] + [w[q]]
  {
  }

  /** The tail is the longest suffix of s without a '\n'. */
  lemma {:induction false} RestIsSuffix(s: seq<byte>)
    ensures Rest(s) == s[|s| - |Rest(s)|..] && Newline !in Rest(s)
    ensures |Rest(s)| < |s| ==> s[|s| - |Rest(s)| - 1] == Newline
    decreases |s|
  {
    if s != [] {
      var init := s[..|s| - 1];
      RestIsSuffix(init);
      Last(s);
      Snoc(init, s[|s| - 1]);
    }
  }

  /** Bytes without a '\n' form no key: they are all tail. */
  lemma {:induction false} NoSepIsTail(r: seq<byte>)
    requires Newline !in r
    ensures Keys(r) == [] && Rest(r) == r
    decreases |r|
  {
    if r != [] {
      var init := r[..|r| - 1];
      assert Newline !in init by {
        assert forall i :: 0 <= i < |init| ==> init[i] == r[i];
      }
      NoSepIsTail(init);
      Last(r);
      Snoc(init, r[|r| - 1]);
    }
  }

  // Proof hint: a sequence identity the solver needs spelled out at its call sites.
  lemma AppendEmpty(a: seq<byte>, b: seq<byte>)
    requires b == []
    ensures a + b == a
  {
  }

  // Proof hint: a sequence identity the solver needs spelled out at its call sites.
  lemma AppendLast(a: seq<byte>, b: seq<byte>)
    requires b != []
    ensures a + b == (a + b[..|b| - 1]) + [b[|b| - 1]]
  {
  }

  /** A key cut by a chunk boundary is split as one key: splitting a + b
      splits a, then continues from a's unterminated tail followed by b. */
  lemma {:induction false} KeysAppend(a: seq<byte>, b: seq<byte>)
    ensures Keys(a + b) == Keys(a) + Keys(Rest(a) + b)
    ensures Rest(a + b) == Rest(Rest(a) + b)
    decreases |b|
  {
    if b == [] {
      RestIsSuffix(a);
      NoSepIsTail(Rest(a));
      AppendEmpty(a, b);
      AppendEmpty(Rest(a), b);
    } else {
      var b', c := b[..|b| - 1], b[|b| - 1];
      KeysAppend(a, b');
      AppendLast(a, b);
      AppendLast(Rest(a), b);
      Snoc(a + b', c);
      Snoc(Rest(a) + b', c);
    }
  }

  /** Keys written back out, each followed by its separator. */
  function Join(ks: seq<Key>): seq<byte>
  {
    if ks == [] then [] else Join(ks[..|ks| - 1]) + ks[|ks| - 1] + [Newline]
  }

  /** Joining undoes splitting: every byte of s lies in a key, a separator
      or the unterminated tail, in order. */
  lemma {:induction false} KeysRoundTrip(s: seq<byte>)
    ensures Join(Keys(s)) + Rest(s) == s
    decreases |s|
  {
    if s != [] {
      var init, c := s[..|s| - 1], s[|s| - 1];
      KeysRoundTrip(init);
      Last(s);
      Snoc(init, c);
      if c == Newline {
        var ks := Keys(init) + [Rest(init)];
        assert ks[..|ks| - 1] == Keys(init);
      }
    }
  }

  /** No key holds a separator. */
  lemma {:induction false} KeysHaveNoSep(s: seq<byte>)
    ensures forall j :: 0 <= j < |Keys(s)| ==> Newline !in Keys(s)[j]
    decreases |s|
  {
    if s != [] {
      var init := s[..|s| - 1];
      KeysHaveNoSep(init);
      RestIsSuffix(init);
      Last(s);
      Snoc(init, s[|s| - 1]);
    }
  }

  /** Splitting undoes joining: keys without separators come back as they
      were, and nothing is left over. */
  lemma {:induction false} KeysOfJoin(ks: seq<Key>)
    requires forall j :: 0 <= j < |ks| ==> Newline !in ks[j]
    ensures Keys(Join(ks)) == ks && Rest(Join(ks)) == []
    decreases |ks|
  {
    if ks != [] {
      var init, k := ks[..|ks| - 1], ks[|ks| - 1];
      assert forall j :: 0 <= j < |init| ==> init[j] == ks[j];
      KeysOfJoin(init);
      var p := Join(init);
      KeysAppend(p, k);
      NoSepIsTail(k);
      assert Rest(p) + k == k;
      assert Keys(p + k) == init && Rest(p + k) == k;
      Snoc(p + k, Newline);
      assert Join(ks) == p + k + [Newline];
      Last(ks);
    }
  }

  lemma RestAfterNewline(s: seq<byte>)
    requires s == [] || s[|s| - 1] == Newline
    ensures Rest(s) == []
  {
  }

  /** The keys of a prefix of a stream are a prefix of the stream's keys. */
  lemma KeysOfPrefix(a: seq<byte>, s: seq<byte>)
    requires a <= s
    ensures Keys(a) <= Keys(s)
  {
    assert s == a + s[|a|..];
    KeysAppend(a, s[|a|..]);
  }

  // ---------------------------------------------------------------------
  // The key file as a sequence of chunks

  function Flatten(fd: seq<seq<byte>>): seq<byte>
  {
    if fd == [] then [] else fd[0] + Flatten(fd[1..])
  }

  /** read(fd, buf, count): the bytes one read delivers and the
      descriptor afterwards.  A read delivers at most count bytes of the
      current chunk; what it does not deliver stays for the next read. */
  function ReadChunk(fd: seq<seq<byte>>, count: nat): (r: (seq<byte>, seq<seq<byte>>))
    ensures |r.0| <= count
    ensures r.0 + Flatten(r.1) == Flatten(fd)
    ensures (fd != [] && fd[0] != [] && count > 0) <==> r.0 != []
  {
    if fd == [] then ([], [])
    else if count < |fd[0]| then
      assert fd[0] == fd[0][..count] + fd[0][count..];
      assert Flatten([fd[0][count..]] + fd[1..]) == fd[0][count..] + Flatten(fd[1..]) by {
        assert ([fd[0][count..]] + fd[1..])[1..] == fd[1..];
      }
      (fd[0][..count], [fd[0][count..]] + fd[1..])
    else (fd[0], fd[1..])
  }

  /** A read that delivers something shortens what is left to read. */
  lemma ReadShrinks(fd: seq<seq<byte>>, count: nat)
    requires ReadChunk(fd, count).0 != []
    ensures |Flatten(ReadChunk(fd, count).1)| < |Flatten(fd)|
  {
    var r := ReadChunk(fd, count);
    assert |r.0 + Flatten(r.1)| == |Flatten(fd)|;
  }

  /** A read leaves no empty chunk behind when there was none. */
  lemma ReadKeepsChunks(fd: seq<seq<byte>>, count: nat)
    requires forall j :: 0 <= j < |fd| ==> fd[j] != []
    ensures forall j :: 0 <= j < |ReadChunk(fd, count).1| ==> ReadChunk(fd, count).1[j] != []
  {
  }

  /** The bytes the insertion loop reads from fd, when `carry` is what it
      carries over in front of the buffer: each read asks for the room
      left after the carry, and the loop stops at the first read that
      delivers nothing.  It never reads past the end of the stream. */
  function Feed(carry: seq<byte>, fd: seq<seq<byte>>): seq<byte>
    requires |carry| <= Room
    decreases |Flatten(fd)|
  {
    var (got, rest) := ReadChunk(fd, Room - |carry|);
    if got == [] then []
    else got + Feed(Rest(carry + got), rest)
  }

  /** Insertion never reads past the end of the stream. */
  lemma {:induction false} FeedIsPrefix(carry: seq<byte>, fd: seq<seq<byte>>)
    requires |carry| <= Room
    ensures Feed(carry, fd) <= Flatten(fd)
    decreases |Flatten(fd)|
  {
    var (got, rest) := ReadChunk(fd, Room - |carry|);
    if got != [] {
      FeedIsPrefix(Rest(carry + got), rest);
      assert Feed(carry, fd) == got + Feed(Rest(carry + got), rest);
    }
  }

  /** Every run of bytes without a '\n' is shorter than the buffer's room. */
  ghost predicate LinesFit(s: seq<byte>)
  {
    forall i, j :: 0 <= i <= j <= |s| && Newline !in s[i..j] ==> j - i < Room
  }

  /** What follows a position of a stream whose lines fit still fits. */
  lemma LinesFitSuffix(s: seq<byte>, m: nat)
    requires m <= |s| && LinesFit(s)
    ensures LinesFit(s[m..])
  {
    var t := s[m..];
    forall i, j | 0 <= i <= j <= |t| && Newline !in t[i..j]
      ensures j - i < Room
    {
      assert t[i..j] == s[m + i..m + j];
    }
  }

  /** When no chunk is empty and every line fits the buffer, insertion reads
      the whole key file. */
  lemma {:induction false} FeedReadsAll(carry: seq<byte>, fd: seq<seq<byte>>)
    requires |carry| < Room && Newline !in carry
    requires forall j :: 0 <= j < |fd| ==> fd[j] != []
    requires LinesFit(carry + Flatten(fd))
    ensures Feed(carry, fd) == Flatten(fd)
    decreases |Flatten(fd)|
  {
    if fd != [] {
      var (got, rest) := ReadChunk(fd, Room - |carry|);
      ReadKeepsChunks(fd, Room - |carry|);
      var s := carry + Flatten(fd);
      var w := carry + got;
      assert s == w + Flatten(rest);
      var r := Rest(w);
      RestIsSuffix(w);
      var m := |w| - |r|;
      assert s[m..|w|] == r;
      var t := r + Flatten(rest);
      assert t == s[m..];
      LinesFitSuffix(s, m);
      FeedReadsAll(r, rest);
    }
  }

  /** Insertion at most reads a prefix of the file; so the keys it sees are
      a prefix of the file's keys, and all of them when every line fits. */
  lemma InsertedKeysOfFile(fd: seq<seq<byte>>)
    ensures Keys(Feed([], fd)) <= Keys(Flatten(fd))
    ensures (forall j :: 0 <= j < |fd| ==> fd[j] != []) && LinesFit(Flatten(fd)) ==>
              Keys(Feed([], fd)) == Keys(Flatten(fd))
  {
    FeedIsPrefix([], fd);
    KeysOfPrefix(Feed([], fd), Flatten(fd));
    if (forall j :: 0 <= j < |fd| ==> fd[j] != []) && LinesFit(Flatten(fd)) {
      assert [] + Flatten(fd) == Flatten(fd);
      FeedReadsAll([], fd);
    }
  }

  /** Once the carried tail fills the room, the next read asks for nothing
      and insertion ends, whatever the file still holds. */
  lemma FullCarryEndsInsertion(carry: seq<byte>, fd: seq<seq<byte>>)
    requires |carry| == Room
    ensures Feed(carry, fd) == []
  {
  }

  // ---------------------------------------------------------------------
  // The trie

  /** insert_key: stores n under key, replacing any earlier value. */
  function InsertKey(t: Trie, key: Key, n: int): Trie
  {
    t[key := n]
  }

  /** The trie's exact-match search. */
  function ExactMatchSearch(t: Trie, key: Key): int
  {
    if key in t then t[key] else NoValue
  }

  /** The update/search law of the trie: after update(key) = n the search
      for key yields n, and every other key searches as before. */
  lemma SearchAfterUpdate(t: Trie, key: Key, n: int, other: Key)
    ensures ExactMatchSearch(InsertKey(t, key, n), key) == n
    ensures other != key ==> ExactMatchSearch(InsertKey(t, key, n), other) == ExactMatchSearch(t, other)
  {
  }

  /** lookup_key: a key is found when its search result is not negative. */
  function LookupKey(t: Trie, key: Key): (found: bool)
    ensures found <==> key in t && t[key] >= 0
  {
    ExactMatchSearch(t, key) >= 0
  }

  /** The trie after inserting ks in order with values n + 1, n + 2, ... */
  function InsertKeys(t: Trie, ks: seq<Key>, n: int): Trie
    decreases |ks|
  {
    if ks == [] then t else InsertKeys(InsertKey(t, ks[0], n + 1), ks[1..], n + 1)
  }

  lemma {:induction false} InsertKeysAppend(t: Trie, ks: seq<Key>, k: Key, n: int)
    ensures InsertKeys(t, ks + [k], n) == InsertKey(InsertKeys(t, ks, n), k, n + |ks| + 1)
    decreases |ks|
  {
    if ks == [] {
      assert [k][1..] == [];
    } else {
      assert (ks + [k])[1..] == ks[1..] + [k];
      InsertKeysAppend(InsertKey(t, ks[0], n + 1), ks[1..], k, n + 1);
    }
  }

  /** After inserting ks, the trie holds exactly the old keys and ks; a key
      of ks holds n + 1 + the index of its last occurrence, so a repeated
      key keeps the value of its last occurrence; other keys are unchanged. */
  lemma {:induction false} LastOccurrenceWins(t: Trie, ks: seq<Key>, n: int)
    ensures var r := InsertKeys(t, ks, n);
      (forall k :: k in r <==> k in t || k in ks) &&
      (forall j :: 0 <= j < |ks| && ks[j] !in ks[j + 1..] ==> r[ks[j]] == n + 1 + j) &&
      (forall k :: k in t && k !in ks ==> r[k] == t[k])
    decreases |ks|
  {
    if ks != [] {
      var m := |ks| - 1;
      var init := ks[..m];
      assert ks == init + [ks[m]];
      LastOccurrenceWins(t, init, n);
      InsertKeysAppend(t, init, ks[m], n);
      var r := InsertKeys(t, ks, n);
      forall j | 0 <= j < |ks| && ks[j] !in ks[j + 1..]
        ensures r[ks[j]] == n + 1 + j
      {
        if j < m {
          assert ks[m] in ks[j + 1..];
          assert init[j + 1..] == ks[j + 1..m];
          assert ks[j] !in init[j + 1..];
        }
      }
    }
  }

  /** How many of ks lookup_key finds. */
  function CountHits(t: Trie, ks: seq<Key>): (c: nat)
    ensures c <= |ks|
    decreases |ks|
  {
    if ks == [] then 0 else (if LookupKey(t, ks[0]) then 1 else 0) + CountHits(t, ks[1..])
  }

  lemma {:induction false} CountHitsAppend(t: Trie, ks: seq<Key>, k: Key)
    ensures CountHits(t, ks + [k]) == CountHits(t, ks) + (if LookupKey(t, k) then 1 else 0)
    decreases |ks|
  {
    if ks == [] {
      assert [k][1..] == [];
    } else {
      assert (ks + [k])[1..] == ks[1..] + [k];
      CountHitsAppend(t, ks[1..], k);
    }
  }

  /** With non-negative values, a lookup finds exactly the keys that were
      inserted or present before. */
  lemma FoundIffInserted(t: Trie, ks: seq<Key>, n: int, key: Key)
    requires forall k :: k in t ==> t[k] >= 0
    requires n >= 0
    ensures LookupKey(InsertKeys(t, ks, n), key) <==> key in t || key in ks
  {
    LastOccurrenceWins(t, ks, n);
    var r := InsertKeys(t, ks, n);
    if key in ks {
      var j :| 0 <= j < |ks| && ks[j] == key;
      while key in ks[j + 1..]
        invariant 0 <= j < |ks| && ks[j] == key
        decreases |ks| - j
      {
        var j' :| j + 1 <= j' < |ks| && ks[j'] == key;
        assert j' - (j + 1) < |ks[j + 1..]| && ks[j + 1..][j' - (j + 1)] == key;
        j := j';
      }
    }
  }

  /** InsertKeys over two runs of keys: the second continues the numbering. */
  lemma {:induction false} InsertKeysConcat(t: Trie, a: seq<Key>, b: seq<Key>, n: int)
    ensures InsertKeys(t, a + b, n) == InsertKeys(InsertKeys(t, a, n), b, n + |a|)
    decreases |a|
  {
    if a != [] {
      assert (a + b)[1..] == a[1..] + b;
      InsertKeysConcat(InsertKey(t, a[0], n + 1), a[1..], b, n + 1);
    } else {
      assert a + b == b;
    }
  }

  // ---------------------------------------------------------------------
  // The buffer code

  /** s with every '\n' before position e overwritten by '\0', as find_sep
      leaves the buffer once the scan has passed e. */
  function Zeroed(s: seq<byte>, e: int): (z: seq<byte>)
    ensures |z| == |s|
  {
    seq(|s|, i requires 0 <= i < |s| => if i < e && s[i] == Newline then Nul else s[i])
  }

  /** Finding the separator at q and zeroing it moves the scan past q. */
  lemma ZeroedStep(s: seq<byte>, e: nat, q: nat)
    requires e <= q < |s| && s[q] == Newline
    requires forall i :: e <= i < q ==> s[i] != Newline
    ensures Zeroed(s, e)[q := Nul] == Zeroed(s, q + 1)
    ensures Zeroed(s, q + 1)[e..q] == s[e..q]
  {
  }

  /** find_sep: scans from p to the first '\n', which it overwrites with
      '\0', and returns its position.  The caller guarantees such a '\n'
      exists; nothing else in the buffer changes. */
  method FindSep(data: array<byte>, p: nat) returns (q: nat)
    requires p <= data.Length && Newline in data[p..]
    modifies data
    ensures p <= q < data.Length && old(data[q]) == Newline
    ensures forall i :: p <= i < q ==> old(data[i]) != Newline
    ensures data[..] == old(data[..])[q := Nul]
  {
    q := p;
    while data[q] != Newline
      invariant p <= q < data.Length && Newline in data[q..]
      invariant forall i :: p <= i < q ==> data[i] != Newline
      decreases data.Length - q
    {
      assert data[q..] == [data[q]] + data[q + 1..];
      q := q + 1;
    }
    data[q] := Nul;
  }

  /** One read: copies what ReadChunk delivers to data[pos..]. */
  method Read(fd: seq<seq<byte>>, data: array<byte>, pos: nat, count: nat)
      returns (k: nat, rest: seq<seq<byte>>)
    requires pos + count <= data.Length
    modifies data
    ensures k == |ReadChunk(fd, count).0| && pos + k <= data.Length
    ensures data[..pos] == old(data[..pos])
    ensures data[..pos + k] == old(data[..pos]) + ReadChunk(fd, count).0
    ensures forall j :: pos + k <= j < data.Length ==> data[j] == old(data[j])
    ensures rest == ReadChunk(fd, count).1
  {
    var r := ReadChunk(fd, count);
    var got := r.0;
    rest := r.1;
    k := |got|;
    for i := 0 to k
      invariant data[..pos + i] == old(data[..pos]) + got[..i]
      invariant forall j :: pos + k <= j < data.Length ==> data[j] == old(data[j])
    {
      data[pos + i] := got[i];
    }
    assert got[..k] == got;
  }

  /** memmove(data, data + start, len): forward copy to the front. */
  method MoveToFront(data: array<byte>, start: nat, len: nat)
    requires start + len <= data.Length
    modifies data
    ensures data[..len] == old(data[start..start + len])
    ensures data[len..] == old(data[len..])
  {
    for i := 0 to len
      invariant forall j :: 0 <= j < i ==> data[j] == old(data[start + j])
      invariant forall j :: start + i <= j < start + len ==> data[j] == old(data[j])
      invariant forall j :: len <= j < data.Length ==> data[j] == old(data[j])
    {
      data[i] := data[start + i];
    }
  }

  /** The for loop of insert: with the sentinel '\n' at tail_, hands every
      complete key of data[..tail_] to insert_key, numbering on from n0,
      and returns where the unterminated tail starts. */
  method InsertWindow(data: array<byte>, carried: nat, tail_: nat, t0: Trie, n0: int)
      returns (start: nat, t: Trie, n: int)
    requires carried <= tail_ < data.Length && data[tail_] == Newline
    requires forall i :: 0 <= i < carried ==> data[i] != Newline
    modifies data
    ensures start <= tail_
    ensures data[start..tail_] == Rest(old(data[..tail_]))
    ensures t == InsertKeys(t0, Keys(old(data[..tail_])), n0)
    ensures n == n0 + |Keys(old(data[..tail_]))|
  {
    ghost var W := data[..tail_ + 1];
    start, t, n := ScanKeys(data, carried, tail_, t0, n0, W);
    ghost var w := W[..tail_];
    assert w == old(data[..tail_]);
    assert data[start..tail_] == w[start..] by {
      forall i | 0 <= i < tail_ - start
        ensures data[start..tail_][i] == w[start..][i]
      {
        assert data[start + i] == W[start + i];
      }
    }
    assert W[..start] == w[..start];
    TailStep(w, start);
  }

  /** The scan of the for loop over the window W = data[..tail_ + 1]:
      hands the keys of W[..start] to insert_key and stops at the start of
      the unterminated tail. */
  method ScanKeys(data: array<byte>, carried: nat, tail_: nat, t0: Trie, n0: int, ghost W: seq<byte>)
      returns (start: nat, t: Trie, n: int)
    requires carried <= tail_ < data.Length && data[..tail_ + 1] == W && W[tail_] == Newline
    requires forall i :: 0 <= i < carried ==> W[i] != Newline
    modifies data
    ensures start <= tail_ && (start == 0 || W[start - 1] == Newline)
    ensures forall i :: start <= i < tail_ ==> W[i] != Newline
    ensures forall i :: start <= i < tail_ ==> data[i] == W[i]
    ensures t == InsertKeys(t0, Keys(W[..start]), n0) && n == n0 + |Keys(W[..start])|
  {
    ghost var ks: seq<Key> := [];
    start := 0;
    var end := carried;
    t, n := t0, n0;
    while true
      invariant start <= end <= tail_
      invariant start == 0 || W[start - 1] == Newline
      invariant forall i :: start <= i < end ==> W[i] != Newline
      invariant forall i :: start <= i <= tail_ ==> data[i] == W[i]
      invariant ks == Keys(W[..start])
      invariant t == InsertKeys(t0, ks, n0) && n == n0 + |ks|
      decreases tail_ - end
    {
      assert data[end..][tail_ - end] == Newline;
      end := FindSep(data, end);
      if end == tail_ {
        break;
      }
      var key := data[start..end];
      assert key == W[start..end];
      ScanStep(W, start, end, t0, n0, ks, t, n);
      t := InsertKey(t, key, n + 1);
      n := n + 1;
      ks := ks + [key];
      end := end + 1;
      start := end;
    }
  }

  /** One key of the scan: the key W[start..q] is the next key of W and
      goes into the trie with the next number. */
  lemma ScanStep(W: seq<byte>, start: nat, q: nat, t0: Trie, n0: int, ks: seq<Key>, t: Trie, n: int)
    requires start <= q < |W| && W[q] == Newline
    requires forall i :: start <= i < q ==> W[i] != Newline
    requires start == 0 || W[start - 1] == Newline
    requires ks == Keys(W[..start])
    requires t == InsertKeys(t0, ks, n0) && n == n0 + |ks|
    ensures ks + [W[start..q]] == Keys(W[..q + 1])
    ensures InsertKey(t, W[start..q], n + 1) == InsertKeys(t0, ks + [W[start..q]], n0)
    ensures n + 1 == n0 + |ks + [W[start..q]]|
  {
    InsertStep(W, start, q);
    InsertKeysAppend(t0, ks, W[start..q], n0);
  }

  /** insert<T>: reads the key file through the buffer and hands every
      complete key it reads to insert_key with values n0 + 1, n0 + 2, ...;
      n ends counting them. */
  method Insert(t0: Trie, fd0: seq<seq<byte>>, n0: int) returns (t: Trie, n: int)
    ensures t == InsertKeys(t0, Keys(Feed([], fd0)), n0)
    ensures n == n0 + |Keys(Feed([], fd0))|
  {
    var data := new byte[BufferSize];
    var start, end, tail := 0, 0, BufferSize - 1;
    var fd := fd0;
    ghost var consumed: seq<byte> := [];
    ghost var ks: seq<Key> := [];
    t, n := t0, n0;
    while true
      invariant start == 0 <= end <= tail == Room && data.Length == BufferSize
      invariant data[..end] == Rest(consumed)
      invariant consumed + Feed(Rest(consumed), fd) == Feed([], fd0)
      invariant ks == Keys(consumed)
      invariant t == InsertKeys(t0, ks, n0) && n == n0 + |ks|
      decreases |Flatten(fd)|
    {
      var got;
      got, end, fd, t, n, consumed, ks := Round(data, end, tail, fd, t, n, t0, n0, fd0, consumed, ks);
      if got == 0 {
        break;
      }
    }
  }

  /** One test of insert's loop condition and, when the read delivered
      something, one run of the loop body: returns what the read delivered,
      the new end of the carried bytes, the descriptor after the read, and
      the trie and counter after the window's keys. Ghost: the bytes of the
      stream consumed so far and the keys among them. */
  method Round(data: array<byte>, end: nat, tail: nat, fd: seq<seq<byte>>, t: Trie, n: int,
               ghost t0: Trie, ghost n0: int, ghost fd0: seq<seq<byte>>,
               ghost consumed: seq<byte>, ghost ks: seq<Key>)
      returns (got: nat, end': nat, fd': seq<seq<byte>>, t': Trie, n': int,
               ghost consumed': seq<byte>, ghost ks': seq<Key>)
    requires end <= tail == Room < data.Length
    requires data[..end] == Rest(consumed)
    requires consumed + Feed(Rest(consumed), fd) == Feed([], fd0)
    requires ks == Keys(consumed)
    requires t == InsertKeys(t0, ks, n0) && n == n0 + |ks|
    modifies data
    ensures end' <= tail && data[..end'] == Rest(consumed')
    ensures got != 0 ==> consumed' + Feed(Rest(consumed'), fd') == Feed([], fd0)
    ensures ks' == Keys(consumed')
    ensures t' == InsertKeys(t0, ks', n0) && n' == n0 + |ks'|
    ensures got == 0 ==> consumed' == Feed([], fd0)
    ensures got != 0 ==> |Flatten(fd')| < |Flatten(fd)|
  {
    got, fd' := Read(fd, data, end, tail - end);
    ghost var carry, bytes := Rest(consumed), ReadChunk(fd, tail - end).0;
    if got == 0 {
      FeedStops(carry, fd, tail - end);
      AppendEmpty(consumed, []);
      return got, end, fd', t, n, consumed, ks;
    }
    end', t', n', consumed', ks' := Consume(data, end, end + got, t, n, t0, n0, fd0, consumed, ks,
                                            carry, fd, tail - end, bytes, fd');
  }

  /** Round after a read that delivered bytes: the window step on the buffer
      and what it does to the consumed bytes, the keys and the trie. */
  method Consume(data: array<byte>, carried: nat, tail_: nat, t: Trie, n: int,
                 ghost t0: Trie, ghost n0: int, ghost fd0: seq<seq<byte>>,
                 ghost consumed: seq<byte>, ghost ks: seq<Key>, ghost carry: seq<byte>,
                 ghost fd: seq<seq<byte>>, ghost count: nat, ghost bytes: seq<byte>,
                 ghost rest: seq<seq<byte>>)
      returns (end': nat, t': Trie, n': int, ghost consumed': seq<byte>, ghost ks': seq<Key>)
    requires tail_ < data.Length && data[..tail_] == carry + bytes
    requires carry == Rest(consumed) && carried == |carry| && carried + count == Room
    requires consumed + Feed(carry, fd) == Feed([], fd0)
    requires bytes == ReadChunk(fd, count).0 && bytes != [] && rest == ReadChunk(fd, count).1
    requires ks == Keys(consumed) && t == InsertKeys(t0, ks, n0) && n == n0 + |ks|
    modifies data
    ensures end' <= tail_ && data[..end'] == Rest(consumed')
    ensures consumed' + Feed(Rest(consumed'), rest) == Feed([], fd0)
    ensures ks' == Keys(consumed')
    ensures t' == InsertKeys(t0, ks', n0) && n' == n0 + |ks'|
    ensures |Flatten(rest)| < |Flatten(fd)|
  {
    RestIsSuffix(consumed);
    assert data[..carried] == carry by {
      assert data[..carried] == (carry + bytes)[..carried];
    }
    end', t', n' := Window(data, carried, tail_, t, n, carry + bytes);
    consumed' := consumed + bytes;
    ks' := ks + Keys(carry + bytes);
    Progress(t0, n0, fd0, consumed, carry, fd, count, bytes, rest, ks, t, n, consumed', ks', t', n');
  }

  /** What one round with a non-empty read does to the ghost state: the
      consumed bytes grow by the bytes read, the keys by the window's keys,
      and the trie and counter follow. */
  lemma Progress(t0: Trie, n0: int, fd0: seq<seq<byte>>, consumed: seq<byte>, carry: seq<byte>,
                 fd: seq<seq<byte>>, count: nat, bytes: seq<byte>, rest: seq<seq<byte>>,
                 ks: seq<Key>, t: Trie, n: int, consumed': seq<byte>, ks': seq<Key>, t': Trie, n': int)
    requires carry == Rest(consumed) && |carry| + count == Room
    requires consumed + Feed(carry, fd) == Feed([], fd0)
    requires bytes == ReadChunk(fd, count).0 && bytes != [] && rest == ReadChunk(fd, count).1
    requires ks == Keys(consumed) && t == InsertKeys(t0, ks, n0) && n == n0 + |ks|
    requires t' == InsertKeys(t, Keys(carry + bytes), n) && n' == n + |Keys(carry + bytes)|
    requires consumed' == consumed + bytes && ks' == ks + Keys(carry + bytes)
    ensures Rest(carry + bytes) == Rest(consumed')
    ensures consumed' + Feed(Rest(consumed'), rest) == Feed([], fd0)
    ensures ks' == Keys(consumed')
    ensures t' == InsertKeys(t0, ks', n0) && n' == n0 + |ks'|
    ensures |Flatten(rest)| < |Flatten(fd)|
  {
    Advance(fd0, consumed, carry, fd, count, bytes, rest);
    InsertKeysConcat(t0, ks, Keys(carry + bytes), n0);
  }

  /** The body of insert's outer loop after a read: plants the sentinel at
      tail_, inserts the window's complete keys and moves the unterminated
      tail to the front; returns the new end of the carried bytes. */
  method Window(data: array<byte>, carried: nat, tail_: nat, t0: Trie, n0: int, ghost w: seq<byte>)
      returns (end: nat, t: Trie, n: int)
    requires carried <= tail_ < data.Length && Newline !in data[..carried]
    requires data[..tail_] == w
    modifies data
    ensures end <= tail_
    ensures data[..end] == Rest(w)
    ensures t == InsertKeys(t0, Keys(w), n0)
    ensures n == n0 + |Keys(w)|
  {
    data[tail_] := Newline;
    assert data[..tail_] == w;
    assert forall i :: 0 <= i < carried ==> data[i] != Newline by {
      assert forall i :: 0 <= i < carried ==> data[i] == data[..carried][i];
    }
    var start;
    start, t, n := InsertWindow(data, carried, tail_, t0, n0);
    MoveToFront(data, start, tail_ - start);
    end := tail_ - start;
  }

  /** One round of insert's outer loop, on the stream: what was consumed
      grows by the bytes read, and the window (the carry followed by those
      bytes) leaves the stream's new tail behind. */
  lemma Advance(fd0: seq<seq<byte>>, consumed: seq<byte>, carry: seq<byte>,
                fd: seq<seq<byte>>, count: nat, bytes: seq<byte>, rest: seq<seq<byte>>)
    requires carry == Rest(consumed) && |carry| + count == Room
    requires consumed + Feed(carry, fd) == Feed([], fd0)
    requires bytes == ReadChunk(fd, count).0 && bytes != []
    requires rest == ReadChunk(fd, count).1
    ensures |Flatten(rest)| < |Flatten(fd)|
    ensures Rest(consumed + bytes) == Rest(carry + bytes)
    ensures |Rest(consumed + bytes)| <= Room
    ensures (consumed + bytes) + Feed(Rest(consumed + bytes), rest) == Feed([], fd0)
    ensures Keys(consumed + bytes) == Keys(consumed) + Keys(carry + bytes)
  {
    AdvanceFeed(fd0, consumed, carry, fd, count, bytes, rest);
    KeysAppend(consumed, bytes);
    ReadShrinks(fd, count);
  }

  lemma AdvanceFeed(fd0: seq<seq<byte>>, consumed: seq<byte>, carry: seq<byte>,
                    fd: seq<seq<byte>>, count: nat, bytes: seq<byte>, rest: seq<seq<byte>>)
    requires carry == Rest(consumed) && |carry| + count == Room
    requires consumed + Feed(carry, fd) == Feed([], fd0)
    requires bytes == ReadChunk(fd, count).0 && bytes != []
    requires rest == ReadChunk(fd, count).1
    ensures Rest(consumed + bytes) == Rest(carry + bytes)
    ensures |Rest(consumed + bytes)| <= Room
    ensures (consumed + bytes) + Feed(Rest(consumed + bytes), rest) == Feed([], fd0)
  {
    KeysAppend(consumed, bytes);
    RestIsSuffix(consumed);
    FeedUnfold(carry, fd, count, bytes, rest);
    Assoc(consumed, bytes, Feed(Rest(carry + bytes), rest));
  }

  /** A read that delivers nothing ends the feed. */
  lemma FeedStops(carry: seq<byte>, fd: seq<seq<byte>>, count: nat)
    requires |carry| + count == Room && ReadChunk(fd, count).0 == []
    ensures Feed(carry, fd) == []
  {
  }

  /** A read that delivers something is followed by the rest of the feed. */
  lemma FeedUnfold(carry: seq<byte>, fd: seq<seq<byte>>, count: nat, bytes: seq<byte>, rest: seq<seq<byte>>)
    requires |carry| + count == Room
    requires bytes == ReadChunk(fd, count).0 && bytes != []
    requires rest == ReadChunk(fd, count).1
    ensures Feed(carry, fd) == bytes + Feed(Rest(carry + bytes), rest)
  {
    assert Room - |carry| == count;
    assert Feed(carry, fd) == ReadChunk(fd, count).0 + Feed(Rest(carry + ReadChunk(fd, count).0), ReadChunk(fd, count).1);
  }

  // Proof hint: a sequence identity the solver needs spelled out at its call sites.
  lemma Assoc(a: seq<byte>, b: seq<byte>, c: seq<byte>)
    ensures a + (b + c) == (a + b) + c
  {
  }

  /** The inner loop found the key w[start..q]. */
  lemma InsertStep(w: seq<byte>, start: nat, q: nat)
    requires start <= q < |w| && w[q] == Newline
    requires forall i :: start <= i < q ==> w[i] != Newline
    requires start == 0 || w[start - 1] == Newline
    ensures Keys(w[..q + 1]) == Keys(w[..start]) + [w[start..q]]
  {
    var a, k := w[..start], w[start..q];
    RestAfterNewline(a);
    NoSepIsTail(k);
    var x := w[..q];
    assert x == a + k;
    KeysAppend(a, k);
    assert Rest(a) + k == k;
    assert Keys(x) == Keys(a) && Rest(x) == k;
    PrefixSnoc(w, q);
    Snoc(x, Newline);
  }

  /** The inner loop reached the sentinel: w[start..] is the new carry. */
  lemma TailStep(w: seq<byte>, start: nat)
    requires start <= |w|
    requires forall i :: start <= i < |w| ==> w[i] != Newline
    requires start == 0 || w[start - 1] == Newline
    ensures Keys(w) == Keys(w[..start]) && Rest(w) == w[start..]
  {
    var a, r := w[..start], w[start..];
    RestAfterNewline(a);
    NoSepIsTail(r);
    assert w == a + r;
    KeysAppend(a, r);
    assert Rest(a) + r == r;
  }

  /** One key of lookup's scan: s[start..q] is the next key of s, and it
      counts as a hit exactly when lookup_key finds it. */
  lemma LookupStep(s: seq<byte>, start: nat, q: nat, t: Trie, ks: seq<Key>)
    requires start <= q < |s| && s[q] == Newline
    requires forall i :: start <= i < q ==> s[i] != Newline
    requires start == 0 || s[start - 1] == Newline
    requires ks == Keys(s[..start])
    ensures ks + [s[start..q]] == Keys(s[..q + 1])
    ensures CountHits(t, ks + [s[start..q]]) == CountHits(t, ks) + (if LookupKey(t, s[start..q]) then 1 else 0)
  {
    InsertStep(s, start, q);
    CountHitsAppend(t, ks, s[start..q]);
  }

  /** lookup<T>: for a buffer that is empty or ends in '\n', searches every
      key once, counting keys in `count` and found keys in `found`; every
      separator is left overwritten with '\0'. */
  method Lookup(t: Trie, data: array<byte>, found0: int, count0: int) returns (found: int, count: int)
    requires data.Length == 0 || data[data.Length - 1] == Newline
    modifies data
    ensures count == count0 + |Keys(old(data[..]))|
    ensures found == found0 + CountHits(t, Keys(old(data[..])))
    ensures found0 <= found && found - found0 <= count - count0
    ensures data.Length == 0 ==> found == found0 && count == count0
    ensures forall i :: 0 <= i < data.Length ==>
              data[i] == if old(data[i]) == Newline then Nul else old(data[i])
  {
    ghost var s := data[..];
    ghost var ks: seq<Key> := [];
    found, count := found0, count0;
    var start, end, tail := 0, 0, data.Length;
    assert Zeroed(s, 0) == s;
    while end != tail
      invariant start == end <= tail == data.Length == |s|
      invariant end == 0 || s[end - 1] == Newline
      invariant data[..] == Zeroed(s, end)
      invariant ks == Keys(s[..end])
      invariant count == count0 + |ks| && found == found0 + CountHits(t, ks)
    {
      end, found, count, ks := LookupNext(t, data, start, found, count, s, ks);
      start := end;
    }
    assert s[..end] == s;
  }

  /** One pass of lookup's loop body from start: finds the separator
      ending the key at start, zeroes it, looks the key up, counts it, and
      returns where the next key starts. */
  method LookupNext(t: Trie, data: array<byte>, start: nat, found: int, count: int,
                    ghost s: seq<byte>, ghost ks: seq<Key>)
      returns (next: nat, found': int, count': int, ghost ks': seq<Key>)
    requires start < data.Length == |s| && s[|s| - 1] == Newline
    requires start == 0 || s[start - 1] == Newline
    requires data[..] == Zeroed(s, start) && ks == Keys(s[..start])
    modifies data
    ensures start < next <= data.Length && s[next - 1] == Newline
    ensures data[..] == Zeroed(s, next) && ks' == Keys(s[..next])
    ensures count' == count + 1 && |ks'| == |ks| + 1
    ensures found' - found == CountHits(t, ks') - CountHits(t, ks)
  {
    assert data[start..][|s| - 1 - start] == Newline;
    ghost var before := data[..];
    var end := FindSep(data, start);
    assert forall i :: start <= i <= end ==> before[i] == s[i];
    ZeroedStep(s, start, end);
    LookupStep(s, start, end, t, ks);
    var key := data[start..end];
    found' := found;
    if LookupKey(t, key) {
      found' := found' + 1;
    }
    count' := count + 1;
    ks' := ks + [key];
    next := end + 1;
  }

  /** bench<T>: inserts the key file into a fresh trie, then, unless the
      query argument is "-", looks up every key of the query file. */
  method Bench(keys: seq<seq<byte>>, queries: Option<seq<byte>>)
      returns (words: int, searched: Option<(int, int)>)
    requires queries.Some? ==> queries.value == [] || queries.value[|queries.value| - 1] == Newline
    ensures words == |Keys(Feed([], keys))|
    ensures queries.None? <==> searched.None?
    ensures queries.Some? ==>
              searched.value.0 == |Keys(queries.value)| &&
              searched.value.1 == Occurring(Keys(Feed([], keys)), Keys(queries.value))
  {
    var t: Trie := map[];
    var n := 0;
    t, n := Insert(t, keys, n);
    words := n;
    if queries.None? {
      return words, None;
    }
    var q := queries.value;
    var data := new byte[|q|](i requires 0 <= i < |q| => q[i]);
    assert data[..] == q;
    var count, found := 0, 0;
    found, count := Lookup(t, data, found, count);
    HitsAreInsertedKeys(Keys(Feed([], keys)), Keys(q));
    searched := Some((count, found));
  }

  /** How many of qs occur in ks. */
  function Occurring(ks: seq<Key>, qs: seq<Key>): nat
    decreases |qs|
  {
    if qs == [] then 0 else (if qs[0] in ks then 1 else 0) + Occurring(ks, qs[1..])
  }

  /** After inserting ks into an empty trie from 0, lookup finds exactly
      the queries that occur among the inserted keys. */
  lemma {:induction false} HitsAreInsertedKeys(ks: seq<Key>, qs: seq<Key>)
    ensures CountHits(InsertKeys(map[], ks, 0), qs) == Occurring(ks, qs)
    decreases |qs|
  {
    if qs != [] {
      HitsAreInsertedKeys(ks, qs[1..]);
      FoundIffInserted(map[], ks, 0, qs[0]);
    }
  }
}
