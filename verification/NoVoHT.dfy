/** The persistent hash table (`NoVoHT`): chained buckets in memory and the log of
    NoVoHTLog on disk.

    The table is proved to be a map whatever its hash function; the log is proved to hold
    the same map as long as every pair put so far was storable. */
module NoVoHTs {
  import opened Basics
  import opened NoVoHTLog

  /** A node of a chain (`kvpair`); `pos` is where its record begins in the file. */
  class Pair {
    const key: string
    var val: string
    var pos: nat
    var next: Pair?

    constructor (k: string, v: string)
      ensures key == k && val == v && next == null
    {
      key, val, next, pos := k, v, null, 0;
    }
  }

  /** The log and the file agree, and `places` tells where the record of each key is. */
  ghost predicate LogMatches(file: string, log: seq<Record>, places: map<string, nat>, contents: map<string, string>) {
    && file == Flat(log)
    && (forall r :: r in log ==> WellFormed(r))
    && Placed(log, places, contents)
  }

  /** The records that are not crossed out are those of the keys, one each. */
  ghost predicate Placed(log: seq<Record>, places: map<string, nat>, contents: map<string, string>) {
    && places.Keys == contents.Keys
    && (forall k :: k in places ==>
          places[k] < |log| && log[places[k]] == Record(k, contents[k]) && !CrossedOut(k))
    && (forall i :: 0 <= i < |log| && !CrossedOut(log[i].key) ==>
          log[i].key in places && places[log[i].key] == i)
  }

  ghost predicate NoneCrossed(log: seq<Record>) {
    forall i :: 0 <= i < |log| ==> !CrossedOut(log[i].key)
  }

  /** A matching log rebuilds exactly the map it matches. */
  lemma MatchingImage(file: string, log: seq<Record>, places: map<string, nat>, contents: map<string, string>)
    requires LogMatches(file, log, places, contents)
    ensures Image(file) == contents
  {
    hide WellFormed, Flat, Records, Load, CrossedOut;
    RecordsOfFlat(log);
    LoadLive(log);
    forall k | k in Load(log)
      ensures k in contents && Load(log)[k] == contents[k]
    {
      var i :| 0 <= i < |log| && !CrossedOut(log[i].key) && log[i].key == k;
      assert k in places && places[k] == i;
    }
    forall k | k in contents
      ensures k in Load(log)
    {
      assert k in places && log[places[k]].key == k;
    }
    assert forall k :: k in Load(log) <==> k in contents;
  }

  lemma LogIsFile(file: string, log: seq<Record>, places: map<string, nat>, contents: map<string, string>)
    requires LogMatches(file, log, places, contents)
    ensures file == Flat(log)
    ensures forall k :: k in contents ==> Storable(k, contents[k])
  {
    forall k | k in contents
      ensures Storable(k, contents[k])
    {
      assert k in places && log[places[k]] in log;
    }
  }

  lemma OffsetsKept(log: seq<Record>, r: Record)
    ensures forall i :: 0 <= i <= |log| ==> Offset(log + [r], i) == Offset(log, i)
    ensures Offset(log, |log|) == |Flat(log)|
  {
    hide Flat;
    forall i | 0 <= i <= |log|
      ensures Offset(log + [r], i) == Offset(log, i)
    {
      assert (log + [r])[..i] == log[..i];
    }
    assert log[..|log|] == log;
  }

  /** Appending the record of a new storable key. */
  lemma MatchingAppend(file: string, log: seq<Record>, places: map<string, nat>, contents: map<string, string>,
                       k: string, v: string)
    requires LogMatches(file, log, places, contents)
    requires k !in contents && Storable(k, v)
    ensures LogMatches(file + Text(k, v), log + [Record(k, v)], places[k := |log|], contents[k := v])
  {
    hide Placed, Flat, CrossedOut, Text;
    FlatAppend(log, Record(k, v));
    PlacedAppend(log, places, contents, k, v);
    assert WellFormed(Record(k, v));
  }

  lemma PlacedAppend(log: seq<Record>, places: map<string, nat>, contents: map<string, string>, k: string, v: string)
    requires Placed(log, places, contents) && k !in contents && !CrossedOut(k)
    ensures Placed(log + [Record(k, v)], places[k := |log|], contents[k := v])
  {
    hide CrossedOut;
  }

  /** Crossing out the record of a key. */
  lemma MatchingCross(file: string, log: seq<Record>, places: map<string, nat>, contents: map<string, string>,
                      k: string)
    requires LogMatches(file, log, places, contents) && k in contents
    ensures k in places && places[k] < |log|
    ensures Offset(log, places[k]) < |file| && WellFormed(log[places[k]])
    ensures LogMatches(file[Offset(log, places[k]) := '~'], log[places[k] := Cross(log[places[k]])],
                       places - {k}, contents - {k})
  {
    hide Placed, Flat, CrossedOut, Text, Cross;
    PlacedIn(log, places, contents, k);
    var i := places[k];
    assert log[i] in log;
    CrossOut(log, i);
    CrossedText(log[i]);
    PlacedCross(log, places, contents, k, Cross(log[i]));
  }

  lemma PlacedIn(log: seq<Record>, places: map<string, nat>, contents: map<string, string>, k: string)
    requires Placed(log, places, contents) && k in contents
    ensures k in places && places[k] < |log| && log[places[k]] == Record(k, contents[k])
  {
  }

  lemma PlacedCross(log: seq<Record>, places: map<string, nat>, contents: map<string, string>, k: string, x: Record)
    requires Placed(log, places, contents) && k in contents && CrossedOut(x.key)
    ensures k in places && places[k] < |log|
    ensures Placed(log[places[k] := x], places - {k}, contents - {k})
  {
    hide CrossedOut;
    assert (places - {k}).Keys == (contents - {k}).Keys;
  }

  lemma CrossedOffsets(log: seq<Record>, i: nat)
    requires i < |log| && WellFormed(log[i])
    ensures forall j :: 0 <= j <= |log| ==> Offset(log[i := Cross(log[i])], j) == Offset(log, j)
  {
    forall j | 0 <= j <= |log|
      ensures Offset(log[i := Cross(log[i])], j) == Offset(log, j)
    {
      CrossOutMovesNothing(log, i, j);
    }
  }

  lemma PutBack<K, V>(m: map<K, V>, k: K, v: V)
    ensures (m - {k})[k := v] == m[k := v]
  {
  }

  /** Both together: the record of a key is crossed out and a new one appended. */
  lemma MatchingReplace(file: string, log: seq<Record>, places: map<string, nat>, contents: map<string, string>,
                        k: string, v: string) returns (log': seq<Record>, places': map<string, nat>)
    requires LogMatches(file, log, places, contents) && k in contents && Storable(k, v)
    ensures k in places && places[k] < |log| && Offset(log, places[k]) < |file|
    ensures LogMatches(file[Offset(log, places[k]) := '~'] + Text(k, v), log', places', contents[k := v])
    ensures |log'| == |log| + 1 && places' == places[k := |log|] && Offset(log', |log|) == |file|
    ensures forall j :: 0 <= j <= |log| ==> Offset(log', j) == Offset(log, j)
  {
    assert k in places && file == Flat(log);
    var i := places[k];
    MatchingCross(file, log, places, contents, k);
    CrossedOffsets(log, i);
    var crossed := log[i := Cross(log[i])];
    assert |Flat(crossed)| == |file|;
    hide *;
    MatchingAppend(file[Offset(log, i) := '~'], crossed, places - {k}, contents - {k}, k, v);
    OffsetsKept(crossed, Record(k, v));
    PutBack(places, k, |log|);
    PutBack(contents, k, v);
    log', places' := crossed + [Record(k, v)], (places - {k})[k := |log|];
  }

  /** A '~' written at a position; beyond the end the file is filled up with NULs. */
  function Overwritten(file: string, position: nat): string {
    if position < |file| then file[position := '~'] else file + seq(position - |file|, _ => NUL) + "~"
  }

  function Slot(hash: string -> nat, k: string, size: nat): (b: nat)
    requires size > 0
    ensures b < size
  {
    hash(k) % size
  }

  /** What follows the i-th node of a chain. */
  ghost function After(c: seq<Pair>, i: nat): Pair?
    requires i < |c|
  {
    if i + 1 < |c| then c[i + 1] else null
  }

  ghost predicate Distinct(c: seq<Pair>) {
    forall x, y :: 0 <= x < y < |c| ==> c[x] != c[y]
  }

  lemma NextNode(c: seq<Pair>, j: nat)
    requires j < |c| && Distinct(c)
    ensures After(c, j) == if j + 1 < |c| then c[j + 1] else null
    ensures c[..j + 1] == c[..j] + [c[j]]
    ensures forall x :: j < x < |c| ==> c[x] != c[j]
  {
  }

  ghost function Head(c: seq<Pair>): Pair? {
    if |c| > 0 then c[0] else null
  }

  /** The nodes of c, in order, hang from head. */
  ghost predicate Chain(head: Pair?, c: seq<Pair>)
    reads (set n | n in c)`next
  {
    && head == (if |c| > 0 then c[0] else null)
    && forall i :: 0 <= i < |c| ==> c[i].next == After(c, i)
  }

  /** Each node of the set is in the bucket of its key, once, and nothing else is. */
  ghost predicate Arranged(hash: string -> nat, size: nat, chains: seq<seq<Pair>>, nodes: set<Pair>) {
    && |chains| == size > 0
    && (forall b, i :: 0 <= b < size && 0 <= i < |chains[b]| ==>
          chains[b][i] in nodes && Slot(hash, chains[b][i].key, size) == b)
    && (forall b, i, j :: 0 <= b < size && 0 <= i < j < |chains[b]| ==> chains[b][i] != chains[b][j])
    && (forall n :: n in nodes ==> n in chains[Slot(hash, n.key, size)])
  }

  lemma ArrangedAppend(hash: string -> nat, size: nat, chains: seq<seq<Pair>>, nodes: set<Pair>, p: Pair)
    requires Arranged(hash, size, chains, nodes) && p !in nodes
    ensures var b := Slot(hash, p.key, size); Arranged(hash, size, chains[b := chains[b] + [p]], nodes + {p})
  {
    var b := Slot(hash, p.key, size);
    var after := chains[b := chains[b] + [p]];
    hide Slot;
    assert after[b][|chains[b]|] == p;
    assert forall n, c :: n in nodes && 0 <= c < size && n in chains[c] ==> n in after[c];
  }

  lemma LastIsUnique(hash: string -> nat, size: nat, chains: seq<seq<Pair>>, nodes: set<Pair>, slot: nat, last: Pair?)
    requires Arranged(hash, size, chains, nodes) && slot < size
    requires last == if |chains[slot]| > 0 then chains[slot][|chains[slot]| - 1] else null
    ensures |chains| == size
    ensures forall b, i :: 0 <= b < |chains| && 0 <= i < |chains[b]| && chains[b][i] == last ==>
      b == slot && i == |chains[slot]| - 1
  {
  }

  lemma WithoutKeeps(c: seq<Pair>, i: nat, nodes: set<Pair>, d: seq<Pair>)
    requires i < |c| && d == Without(c, i)
    requires forall j :: 0 <= j < |c| ==> c[j] in nodes
    requires Distinct(c)
    ensures forall j :: 0 <= j < |d| ==> d[j] in nodes && d[j] != c[i]
  {
  }

  lemma ArrangedRemove(hash: string -> nat, size: nat, chains: seq<seq<Pair>>, nodes: set<Pair>, b: nat, i: nat)
    requires Arranged(hash, size, chains, nodes) && b < size && i < |chains[b]|
    ensures Arranged(hash, size, chains[b := Without(chains[b], i)], nodes - {chains[b][i]})
  {
    hide Slot;
    var after := chains[b := Without(chains[b], i)];
    forall n | n in nodes && n != chains[b][i]
      ensures n in after[Slot(hash, n.key, size)]
    {
      var c := Slot(hash, n.key, size);
      var j :| 0 <= j < |chains[c]| && chains[c][j] == n;
      if c == b {
        assert after[b][if j < i then j else j - 1] == n;
      }
    }
  }

  lemma ArrangedPrepend(hash: string -> nat, size: nat, chains: seq<seq<Pair>>, nodes: set<Pair>, p: Pair)
    requires Arranged(hash, size, chains, nodes) && p !in nodes
    ensures |chains| == size
    ensures var b := Slot(hash, p.key, size); Arranged(hash, size, chains[b := [p] + chains[b]], nodes + {p})
  {
    var b := Slot(hash, p.key, size);
    var after := chains[b := [p] + chains[b]];
    hide Slot;
    assert after[b][0] == p;
    forall n | n in nodes
      ensures n in after[Slot(hash, n.key, size)]
    {
      var c := Slot(hash, n.key, size);
      var j :| 0 <= j < |chains[c]| && chains[c][j] == n;
      if c == b {
        assert after[b][j + 1] == n;
      }
    }
  }

  /** A node has one place, and so has the one before it. */
  lemma PlaceIsUnique(hash: string -> nat, size: nat, chains: seq<seq<Pair>>, nodes: set<Pair>, slot: nat, i: nat)
    requires Arranged(hash, size, chains, nodes) && slot < size && i < |chains[slot]|
    ensures |chains| == size
    ensures forall b, j :: 0 <= b < |chains| && 0 <= j < |chains[b]| && chains[b][j] == chains[slot][i] ==>
      b == slot && j == i
    ensures Distinct(chains[slot])
  {
  }

  /** The buckets of a table hang together as the chains say. */
  ghost predicate Linked(table: array<Pair?>, chains: seq<seq<Pair>>, nodes: set<Pair>)
    reads table, nodes`next
  {
    && table.Length == |chains|
    && (forall b, i :: 0 <= b < |chains| && 0 <= i < |chains[b]| ==> chains[b][i] in nodes)
    && forall b :: 0 <= b < |chains| ==> Chain(table[b], chains[b])
  }

  class NoVoHT {
    const hash: string -> nat
    const magicNumber: int
    const resizeNum: real
    var size: nat
    var table: array<Pair?>
    var numEl: int
    var nRem: int
    var file: string

    ghost var chains: seq<seq<Pair>>
    ghost var nodes: set<Pair>
    /** The node of each key and the map the table stands for. */
    ghost var index: map<string, Pair>
    ghost var contents: map<string, string>
    /** The records of the file, crossed out or not, and the number of each key's record. */
    ghost var log: seq<Record>
    ghost var places: map<string, nat>

    /** The index finds the node of each key of the map. */
    ghost predicate Indexed()
      reads this`nodes, this`index, this`contents, nodes`val
    {
      && index.Keys == contents.Keys
      && (forall n :: n in nodes ==> n.key in index && index[n.key] == n)
      && (forall k :: k in index ==> index[k] in nodes && index[k].key == k && index[k].val == contents[k])
    }

    ghost predicate Valid()
      reads this`size, this`table, this`chains, this`nodes, this`index, this`contents, table, nodes`next, nodes`val
    {
      Arranged(hash, size, chains, nodes) && Linked(table, chains, nodes) && Indexed()
    }

    /** The file holds the same map as the table, and every node knows its record. */
    ghost predicate Faithful()
      reads this`file, this`log, this`places, this`contents, this`nodes, nodes`pos
    {
      && LogMatches(file, log, places, contents)
      && forall n :: n in nodes ==> n.key in places && places[n.key] <= |log| && n.pos == Offset(log, places[n.key])
    }

    /** The element count is the number of keys. */
    ghost predicate Counted()
      reads this`numEl, this`contents
    {
      numEl == |contents|
    }

    /** What the file gives back is what the table holds. */
    lemma FileIsContents()
      requires Faithful()
      ensures Image(file) == contents
    {
      MatchingImage(file, log, places, contents);
    }

    /** A table on an empty file. */
    constructor (h: string -> nat, s: nat, magic: int, ratio: real)
      requires s > 0
      ensures hash == h && magicNumber == magic && resizeNum == ratio
      ensures Valid() && Faithful() && Counted() && contents == map[] && file == "" && size == s
      ensures fresh(table) && nodes == {}
    {
      hash, magicNumber, resizeNum := h, magic, ratio;
      size := s;
      table := new Pair?[s](_ => null);
      numEl, nRem, file := 0, 0, "";
      chains := seq(s, _ => []);
      nodes, index, contents, log, places := {}, map[], map[], [], map[];
    }

    /** Appends the node's record to the file. */
    method Write(p: Pair)
      modifies this`file, p`pos
      ensures p.pos == |old(file)| && file == old(file) + Text(p.key, p.val)
    {
      p.pos := |file|;
      file := file + Text(p.key, p.val);
    }

    /** Overwrites one character. */
    method Mark(position: nat)
      modifies this`file
      ensures file == Overwritten(old(file), position)
    {
      file := Overwritten(file, position);
    }

    method Get(k: string) returns (v: Option<string>)
      requires Valid()
      ensures v == if k != "" && k in contents then Some(contents[k]) else None
    {
      hide Valid, Slot, After, Chain;
      Sized();
      var loc := Slot(hash, k, size);
      Bucket(loc);
      var cur := table[loc];
      ghost var i := 0;
      while cur != null && k != ""
        invariant 0 <= i <= |chains[loc]|
        invariant cur == if i < |chains[loc]| then chains[loc][i] else null
        invariant forall j :: 0 <= j < i ==> chains[loc][j].key != k
        decreases |chains[loc]| - i
      {
        OnlyOne(cur);
        if k == cur.key {
          return Some(cur.val);
        }
        OnlyHere(loc, i);
        cur := cur.next;
        i := i + 1;
      }
      if k != "" {
        NotThere(k, loc);
      }
      return None;
    }

    /** Only one node has a given key, and only if the key is in the map. */
    lemma OnlyOne(p: Pair)
      requires Valid()
      ensures forall n :: n in nodes && n.key == p.key ==> p.key in contents && (p in nodes ==> n == p)
      ensures p in nodes ==> p.key in contents && contents[p.key] == p.val
    {
    }

    /** The new value of an existing key. */
    method SetValue(cur: Pair, v: string)
      requires Valid() && cur in nodes
      modifies this`contents, cur`val
      ensures Valid() && contents == old(contents)[cur.key := v] && cur.val == v
    {
      hide Arranged, Linked;
      cur.val := v;
      contents := contents[cur.key := v];
    }

    /** What a put of an existing key does to the node and to the file. */
    method Rewrite(cur: Pair, v: string)
      requires Valid() && cur in nodes
      modifies this`file, this`contents, cur`val, cur`pos
      ensures Valid() && contents == old(contents)[cur.key := v] && cur.val == v
      ensures file == Overwritten(old(file), old(cur.pos)) + Text(cur.key, v)
      ensures cur.pos == |Overwritten(old(file), old(cur.pos))|
    {
      hide Valid, Overwritten, Text;
      SetValue(cur, v);
      Mark(cur.pos);
      Write(cur);
    }

    /** Brings the ghost log up to date with a record crossed out and written anew. */
    ghost method Renew(p: Pair, before: string, had: map<string, string>, at: nat)
      requires LogMatches(before, log, places, had) && p.key in had && Storable(p.key, p.val)
      requires at == (if p.key in places && places[p.key] <= |log| then Offset(log, places[p.key]) else 0)
      requires contents == had[p.key := p.val] && file == Overwritten(before, at) + Text(p.key, p.val)
      requires p.pos == |Overwritten(before, at)|
      requires forall n :: n in nodes && n != p ==>
        n.key != p.key && n.key in places && places[n.key] <= |log| && n.pos == Offset(log, places[n.key])
      modifies this`log, this`places
      ensures Faithful()
    {
      hide LogMatches, Storable, Text, Offset;
      log, places := MatchingReplace(before, log, places, had, p.key, p.val);
    }

    /** The key of a node is put again: its record is crossed out and a new one appended. */
    method Replace(cur: Pair, v: string)
      requires Valid() && cur in nodes
      modifies this`file, this`log, this`places, this`contents, cur`val, cur`pos
      ensures Valid() && contents == old(contents)[cur.key := v]
      ensures old(Faithful()) && Storable(cur.key, v) ==> Faithful()
    {
      hide LogMatches, Storable, Valid, Text, Offset, Overwritten;
      OnlyOne(cur);
      Rewrite(cur, v);
      if old(Faithful()) && Storable(cur.key, v) {
        Renew(cur, old(file), old(contents), old(cur.pos));
      }
    }

    /** A new node goes to the end of its bucket, after `last` or as the first. */
    method Hang(slot: nat, last: Pair?, p: Pair)
      requires Linked(table, chains, nodes) && slot < |chains|
      requires last == if |chains[slot]| > 0 then chains[slot][|chains[slot]| - 1] else null
      requires forall b, i :: 0 <= b < |chains| && 0 <= i < |chains[b]| && chains[b][i] == last ==>
        b == slot && i == |chains[slot]| - 1
      requires p !in nodes && p.next == null
      modifies table, nodes`next, this`chains, this`nodes
      ensures nodes == old(nodes) + {p} && chains == old(chains)[slot := old(chains[slot]) + [p]]
      ensures Linked(table, chains, nodes)
    {
      if last == null {
        table[slot] := p;
      } else {
        last.next := p;
      }
      chains := chains[slot := chains[slot] + [p]];
      nodes := nodes + {p};
    }

    /** A new key: its node joins the table. */
    method Join(slot: nat, last: Pair?, p: Pair)
      requires Valid() && p.key !in contents && slot == Slot(hash, p.key, size) && p.next == null
      requires slot < |chains|
      requires last == if |chains[slot]| > 0 then chains[slot][|chains[slot]| - 1] else null
      modifies this`contents, this`index, this`chains, this`nodes, table, nodes`next
      ensures Valid() && contents == old(contents)[p.key := p.val] && nodes == old(nodes) + {p}
    {
      hide Linked, Slot, Arranged;
      assert p !in nodes;
      ArrangedAppend(hash, size, chains, nodes, p);
      LastIsUnique(hash, size, chains, nodes, slot, last);
      Hang(slot, last, p);
      index := index[p.key := p];
      contents := contents[p.key := p.val];
    }

    /** Brings the ghost log up to date with a record just written. */
    ghost method Extend(p: Pair, before: string, had: map<string, string>)
      requires LogMatches(before, log, places, had) && p.key !in had && Storable(p.key, p.val)
      requires contents == had[p.key := p.val] && file == before + Text(p.key, p.val) && p.pos == |before|
      requires forall n :: n in nodes && n != p ==>
        n.key != p.key && n.key in places && places[n.key] <= |log| && n.pos == Offset(log, places[n.key])
      modifies this`log, this`places
      ensures Faithful()
    {
      hide LogMatches, Storable, Text, Offset, Flat;
      LogIsFile(before, log, places, had);
      MatchingAppend(before, log, places, had, p.key, p.val);
      OffsetsKept(log, Record(p.key, p.val));
      places := places[p.key := |log|];
      log := log + [Record(p.key, p.val)];
    }

    /** A put of a new key: the node joins the table and its record the file. */
    method Attach(slot: nat, last: Pair?, p: Pair)
      requires Valid() && p.key !in contents && slot == Slot(hash, p.key, size) && p.next == null
      requires slot < |chains|
      requires last == if |chains[slot]| > 0 then chains[slot][|chains[slot]| - 1] else null
      modifies this`numEl, this`file, this`log, this`places, this`contents, this`index, this`chains, this`nodes
      modifies table, nodes`next, p`pos
      ensures Valid() && contents == old(contents)[p.key := p.val] && nodes == old(nodes) + {p}
      ensures numEl == old(numEl) + 1
      ensures old(Faithful()) && Storable(p.key, p.val) ==> Faithful()
    {
      hide LogMatches, Storable, Text, Offset, Valid, Slot;
      OnlyOne(p);
      Join(slot, last, p);
      numEl := numEl + 1;
      Write(p);
      if old(Faithful()) && Storable(p.key, p.val) {
        Extend(p, old(file), old(contents));
      }
    }

    lemma Bucket(b: nat)
      requires Valid() && b < size
      ensures table.Length == |chains| == size && Chain(table[b], chains[b])
      ensures table[b] == if |chains[b]| > 0 then chains[b][0] else null
      ensures forall i :: 0 <= i < |chains[b]| ==> chains[b][i] in nodes && chains[b][i].next == After(chains[b], i)
    {
    }

    /** A bucket holds exactly the nodes whose keys belong there, each once. */
    lemma BucketHolds(b: nat)
      requires Valid() && b < size && |chains| == size
      ensures forall x :: 0 <= x < |chains[b]| ==> chains[b][x] in nodes && Slot(hash, chains[b][x].key, size) == b
      ensures forall n :: n in nodes && Slot(hash, n.key, size) == b ==> n in chains[b]
    {
    }

    /** Every key of the table is in the bucket of its hash modulo the size, reached from the
        table's slot along the links. */
    lemma InItsBucket(k: string)
      requires Valid() && k in contents
      ensures var b := hash(k) % size;
              && b < table.Length == size == |chains| && |chains[b]| > 0 && table[b] == chains[b][0]
              && exists x :: 0 <= x < |chains[b]| && chains[b][x].key == k && chains[b][x].val == contents[k]
    {
      hide Linked;
      var n := index[k];
      Bucket(Slot(hash, k, size));
      assert n in chains[Slot(hash, n.key, size)];
    }

    lemma OnlyHere(b: nat, j: nat)
      requires Valid() && b < size && |chains| == size && j < |chains[b]|
      ensures forall x :: j < x < |chains[b]| ==> chains[b][x] != chains[b][j]
      ensures After(chains[b], j) == if j + 1 < |chains[b]| then chains[b][j + 1] else null
    {
    }

    lemma Sized()
      requires Valid()
      ensures size > 0
    {
    }

    /** Walking the whole bucket without meeting the key shows that it is not in the map. */
    lemma NotThere(k: string, slot: nat)
      requires Valid() && slot == Slot(hash, k, size)
      requires slot < |chains| && forall j :: 0 <= j < |chains[slot]| ==> chains[slot][j].key != k
      ensures k !in contents
    {
    }

    /** Stores a pair: the table becomes the map with that pair. */
    method Put(k: string, v: string)
      requires Valid()
      modifies this, table, nodes`next, nodes`val, nodes`pos
      ensures Valid() && contents == old(contents)[k := v]
      ensures fresh(nodes - old(nodes)) && (table == old(table) || fresh(table))
      ensures var grown := resizeNum != 0.0 && old(numEl) as real >= old(size) as real * resizeNum;
        && size == (if grown then 2 * old(size) else old(size))
        && numEl == (if grown then 0 else old(numEl)) + (if k in old(contents) then 0 else 1)
        && (Counted() <==> if grown then old(contents) == map[] else old(Counted()))
      ensures old(Faithful()) && Storable(k, v) ==> Faithful()
    {
      hide Storable, Faithful, Valid;
      Sized();
      PutSize(contents, k, v);
      if numEl as real >= size as real * resizeNum {
        if resizeNum != 0.0 {
          Resize(size * 2);
        }
      }
      Place(k, v);
    }

    /** The walk of a put: stops at the key's node, or else at the last node of the bucket. */
    method Walk(k: string, slot: nat) returns (cur: Pair?)
      requires Valid() && size > 0 && slot == Slot(hash, k, size)
      ensures slot < |chains| && (cur != null ==> cur in nodes)
      ensures (cur != null && cur.key == k)
        || (k !in contents && cur == if |chains[slot]| > 0 then chains[slot][|chains[slot]| - 1] else null)
    {
      hide Slot, Valid, After, Chain;
      Bucket(slot);
      cur := table[slot];
      if cur == null {
        NotThere(k, slot);
        return;
      }
      ghost var i := 0;
      OnlyHere(slot, 0);
      while cur.next != null
        invariant 0 <= i < |chains[slot]| && cur == chains[slot][i]
        invariant After(chains[slot], i) == if i + 1 < |chains[slot]| then chains[slot][i + 1] else null
        invariant forall j :: 0 <= j < i ==> chains[slot][j].key != k
        decreases |chains[slot]| - i
      {
        if k == cur.key {
          return;
        }
        cur := cur.next;
        i := i + 1;
        OnlyHere(slot, i);
      }
      if k != cur.key {
        NotThere(k, slot);
      }
    }

    method Place(k: string, v: string)
      requires Valid()
      modifies this`numEl, this`file, this`log, this`places, this`contents, this`index, this`chains, this`nodes
      modifies table, nodes`next, nodes`val, nodes`pos
      ensures Valid() && contents == old(contents)[k := v] && fresh(nodes - old(nodes))
      ensures numEl == old(numEl) + if k in old(contents) then 0 else 1
      ensures old(Faithful()) && Storable(k, v) ==> Faithful()
    {
      hide Storable, Faithful, Valid, Slot;
      Sized();
      var slot := Slot(hash, k, size);
      var cur := Walk(k, slot);
      if cur != null && cur.key == k {
        OnlyOne(cur);
        Replace(cur, v);
      } else {
        var add := new Pair(k, v);
        Attach(slot, cur, add);
      }
    }

    /** The walk of a removal: the key's node and the one before it, if any. */
    method Find(k: string, slot: nat) returns (prev: Pair?, r: Pair?, ghost i: nat)
      requires Valid() && size > 0 && slot == Slot(hash, k, size)
      ensures slot < |chains|
      ensures r == null ==> k !in contents
      ensures r != null ==> r in nodes && r.key == k && i < |chains[slot]| && r == chains[slot][i]
      ensures r != null ==> r.next == After(chains[slot], i)
      ensures r != null ==> prev == if i > 0 then chains[slot][i - 1] else null
      ensures prev != null ==> prev in nodes
    {
      hide Slot, Valid, After, Chain;
      Bucket(slot);
      prev, r, i := null, null, 0;
      var cur := table[slot];
      if cur == null {
        NotThere(k, slot);
        return;
      }
      if k == cur.key {
        r := cur;
        return;
      }
      while cur != null
        invariant 0 <= i < |chains[slot]| && cur == chains[slot][i]
        invariant forall j :: 0 <= j <= i ==> chains[slot][j].key != k
        decreases |chains[slot]| - i
      {
        OnlyHere(slot, i);
        if cur.next == null {
          NotThere(k, slot);
          return;
        } else if k == cur.next.key {
          prev, r, i := cur, cur.next, i + 1;
          return;
        }
        cur := cur.next;
        i := i + 1;
      }
    }

    /** The one link that a removal changes. */
    method Cut(slot: nat, prev: Pair?, r: Pair, ghost c: seq<Pair>, ghost i: nat)
      requires slot < table.Length && Chain(table[slot], c) && i < |c| && r == c[i]
      requires prev == if i > 0 then c[i - 1] else null
      requires Distinct(c)
      modifies table, (if prev == null then {} else {prev})`next
      ensures Chain(table[slot], Without(c, i))
      ensures forall b :: 0 <= b < table.Length && b != slot ==> table[b] == old(table[b])
    {
      hide Without;
      ghost var d := Without(c, i);
      assert r.next == After(c, i);
      if prev == null {
        table[slot] := r.next;
      } else {
        prev.next := r.next;
      }
      forall j | 0 <= j < |d|
        ensures d[j].next == After(d, j)
      {
        if j < i {
          assert d[j] == c[j] && (j < i - 1 ==> c[j] != prev);
        } else {
          assert d[j] == c[j + 1] && c[j + 1] != prev;
        }
      }
    }

    /** A node leaves its bucket. */
    method Unhang(slot: nat, prev: Pair?, r: Pair, ghost i: nat)
      requires Linked(table, chains, nodes) && slot < |chains| && i < |chains[slot]| && r == chains[slot][i]
      requires prev == if i > 0 then chains[slot][i - 1] else null
      requires Distinct(chains[slot])
      requires forall b, j :: 0 <= b < |chains| && 0 <= j < |chains[b]| && chains[b][j] == prev ==> b == slot
      requires forall b, j :: 0 <= b < |chains| && 0 <= j < |chains[b]| && chains[b][j] == r ==> b == slot && j == i
      modifies table, nodes`next, this`chains, this`nodes
      ensures nodes == old(nodes) - {r} && chains == old(chains)[slot := Without(old(chains[slot]), i)]
      ensures Linked(table, chains, nodes)
    {
      hide After, Distinct;
      ghost var c := chains[slot];
      assert Chain(table[slot], c);
      Cut(slot, prev, r, c, i);
      hide Without, Chain;
      ghost var was, d := chains, Without(c, i);
      assert forall j :: 0 <= j < |c| ==> c[j] in nodes;
      WithoutKeeps(c, i, nodes, d);
      chains := chains[slot := d];
      nodes := nodes - {r};
      forall b | 0 <= b < |chains|
        ensures Chain(table[b], chains[b])
      {
        assert b != slot ==> chains[b] == was[b];
      }
      forall b, j | 0 <= b < |chains| && 0 <= j < |chains[b]|
        ensures chains[b][j] in nodes
      {
        if b == slot {
          assert chains[b][j] == d[j];
        } else {
          assert chains[b][j] == was[b][j];
        }
      }
    }

    /** A node and its key leave the table. */
    method Leave(slot: nat, prev: Pair?, r: Pair, ghost i: nat)
      requires Valid() && r in nodes && slot == Slot(hash, r.key, size)
      requires slot < |chains| && i < |chains[slot]| && r == chains[slot][i]
      requires prev == if i > 0 then chains[slot][i - 1] else null
      modifies table, nodes`next, this`chains, this`nodes, this`index, this`contents
      ensures Valid() && contents == old(contents) - {r.key} && nodes == old(nodes) - {r}
    {
      hide Linked, Slot, Arranged, Without;
      ArrangedRemove(hash, size, chains, nodes, slot, i);
      PlaceIsUnique(hash, size, chains, nodes, slot, i);
      if i > 0 {
        PlaceIsUnique(hash, size, chains, nodes, slot, i - 1);
      }
      Unhang(slot, prev, r, i);
      index := index - {r.key};
      contents := contents - {r.key};
    }

    /** Brings the ghost log up to date with a record crossed out. */
    ghost method Forget(k: string, before: string, had: map<string, string>)
      requires LogMatches(before, log, places, had) && k in had && k in places && places[k] <= |log|
      requires contents == had - {k} && file == Overwritten(before, Offset(log, places[k]))
      requires forall n :: n in nodes ==>
        n.key != k && n.key in places && places[n.key] <= |log| && n.pos == Offset(log, places[n.key])
      modifies this`log, this`places
      ensures Faithful()
    {
      hide LogMatches, Offset;
      MatchingCross(before, log, places, had, k);
      CrossedOffsets(log, places[k]);
      log, places := log[places[k] := Cross(log[places[k]])], places - {k};
    }

    /** Removes a pair; -1 says that there was none. */
    method Remove(k: string) returns (ret: int)
      requires Valid()
      modifies this`numEl, this`nRem, this`file, this`log, this`places, this`contents, this`index
      modifies this`chains, this`nodes
      modifies table, nodes`next, nodes`pos
      ensures Valid() && contents == old(contents) - {k} && nodes <= old(nodes)
      ensures ret == if k in old(contents) then 0 else -1
      ensures numEl == old(numEl) - (if ret == 0 then 1 else 0)
      ensures Counted() <==> old(Counted())
      ensures nRem == if ret < 0 then old(nRem) else if old(nRem) + 1 == magicNumber then 0 else old(nRem) + 1
      ensures old(Faithful()) ==> Faithful() && (ret == 0 && old(nRem) + 1 == magicNumber ==> NoneCrossed(log))
    {
      hide Faithful, Valid, Slot, NoneCrossed;
      Sized();
      var loc := Slot(hash, k, size);
      ghost var i;
      var prev, r;
      prev, r, i := Find(k, loc);
      if r == null {
        RemoveAbsent(contents, k);
        return -1;
      }
      Discard(loc, prev, r, i);
      return 0;
    }

    /** The second half of a removal, for the node found. */
    method Discard(slot: nat, prev: Pair?, r: Pair, ghost i: nat)
      requires Valid() && r in nodes && slot == Slot(hash, r.key, size)
      requires slot < |chains| && i < |chains[slot]| && r == chains[slot][i]
      requires prev == if i > 0 then chains[slot][i - 1] else null
      modifies this`numEl, this`nRem, this`file, this`log, this`places, this`contents, this`index
      modifies this`chains, this`nodes
      modifies table, nodes`next, nodes`pos
      ensures Valid() && contents == old(contents) - {r.key} && nodes <= old(nodes)
      ensures r.key in old(contents) && numEl == old(numEl) - 1 && |contents| == |old(contents)| - 1
      ensures nRem == if old(nRem) + 1 == magicNumber then 0 else old(nRem) + 1
      ensures old(Faithful()) ==> Faithful() && (old(nRem) + 1 == magicNumber ==> NoneCrossed(log))
    {
      hide Faithful, Valid, Slot, NoneCrossed;
      OnlyOne(r);
      RemoveSize(contents, r.key);
      Erase(slot, prev, r, i);
      CountRemoval();
    }

    /** Every magicNumber removals the file is compacted. */
    method CountRemoval()
      requires Valid()
      modifies this`nRem, this`file, this`log, this`places, nodes`pos
      ensures nRem == if old(nRem) + 1 == magicNumber then 0 else old(nRem) + 1
      ensures old(Faithful()) ==> Faithful() && (old(nRem) + 1 == magicNumber ==> NoneCrossed(log))
    {
      hide Faithful, Valid, NoneCrossed;
      nRem := nRem + 1;
      if nRem == magicNumber {
        WriteFile();
        nRem := 0;
      }
    }

    method Erase(slot: nat, prev: Pair?, r: Pair, ghost i: nat)
      requires Valid() && r in nodes && slot == Slot(hash, r.key, size)
      requires slot < |chains| && i < |chains[slot]| && r == chains[slot][i]
      requires prev == if i > 0 then chains[slot][i - 1] else null
      modifies this`numEl, this`file, this`log, this`places, this`contents, this`index, this`chains, this`nodes
      modifies table, nodes`next
      ensures Valid() && contents == old(contents) - {r.key} && nodes == old(nodes) - {r}
      ensures numEl == old(numEl) - 1
      ensures old(Faithful()) ==> Faithful()
    {
      hide LogMatches, Valid, Slot, Offset, Overwritten;
      OnlyOne(r);
      var toRem := r.pos;
      Leave(slot, prev, r, i);
      numEl := numEl - 1;
      Mark(toRem);
      if old(Faithful()) {
        Forget(r.key, old(file), old(contents));
      }
    }

    /** Compaction has written the nodes seen so far, which hold the map `done`.  The claim is
        made for a table that was faithful before. */
    ghost predicate Progress(was: bool, seen: set<Pair>, done: map<string, string>)
      reads this`file, this`log, this`places, this`contents, this`nodes, nodes`pos
    {
      was ==>
        && LogMatches(file, log, places, done) && NoneCrossed(log)
        && (forall k :: k in contents ==> Storable(k, contents[k]))
        && (forall k :: k in done ==> k in contents && done[k] == contents[k])
        && (forall n :: n in nodes ==> (n in seen <==> n.key in done))
        && (forall n :: n in nodes && n in seen ==>
              n.key in places && places[n.key] <= |log| && n.pos == Offset(log, places[n.key]))
    }

    /** Compaction writes one node, unless its key or value is empty. */
    method WriteOne(p: Pair, ghost was: bool, ghost seen: set<Pair>, ghost done: map<string, string>)
      requires Valid() && p in nodes && p !in seen && Progress(was, seen, done)
      modifies this`file, this`log, this`places, p`pos
      ensures Progress(was, seen + {p}, done[p.key := p.val])
    {
      hide LogMatches, Valid, Offset, Text;
      OnlyOne(p);
      ghost var before := file;
      if p.key != "" && p.val != "" {
        Write(p);
      }
      if was {
        assert Storable(p.key, p.val);
        MatchingAppend(before, log, places, done, p.key, p.val);
        OffsetsKept(log, Record(p.key, p.val));
        LogIsFile(before, log, places, done);
        places := places[p.key := |log|];
        log := log + [Record(p.key, p.val)];
      }
    }

    /** Compaction writes one bucket. */
    method WriteChain(b: nat, ghost was: bool, ghost seen: set<Pair>, ghost done: map<string, string>)
      returns (ghost seen': set<Pair>, ghost done': map<string, string>)
      requires Valid() && b < size && Progress(was, seen, done)
      requires forall n :: n in nodes && n in seen ==> Slot(hash, n.key, size) < b
      modifies this`file, this`log, this`places, nodes`pos
      ensures Progress(was, seen', done')
      ensures forall n :: n in nodes ==> (n in seen' <==> n in seen || Slot(hash, n.key, size) == b)
    {
      hide Progress, Slot, Valid, Chain, After;
      Bucket(b);
      BucketHolds(b);
      ghost var c := chains[b];
      seen', done' := seen, done;
      var cur := table[b];
      ghost var j := 0;
      while cur != null
        invariant 0 <= j <= |c| && cur == if j < |c| then c[j] else null
        invariant Progress(was, seen', done')
        invariant forall x :: j <= x < |c| ==> c[x] !in seen'
        invariant forall x :: 0 <= x < j ==> c[x] in seen'
        invariant forall n :: n in nodes && n in seen' ==> n in seen || Slot(hash, n.key, size) == b
        invariant seen <= seen'
        decreases |c| - j
      {
        OnlyHere(b, j);
        WriteOne(cur, was, seen', done');
        seen', done' := seen' + {cur}, done'[cur.key := cur.val];
        cur := cur.next;
        j := j + 1;
      }
    }

    /** Compaction: the file is rewritten with one record for each pair. */
    method WriteFile()
      requires Valid()
      modifies this`file, this`log, this`places, nodes`pos
      ensures old(Faithful()) ==> Faithful() && NoneCrossed(log)
    {
      hide LogMatches, Progress, Slot, Valid, Storable, Faithful, NoneCrossed;
      Sized();
      ghost var was, seen, done := Faithful(), {}, map[];
      AllStorable();
      file := "";
      log, places := [], map[];
      Started(was);
      var i := 0;
      while i < size
        invariant 0 <= i <= size
        invariant Progress(was, seen, done)
        invariant forall n :: n in nodes ==> (n in seen <==> Slot(hash, n.key, size) < i)
      {
        seen, done := WriteChain(i, was, seen, done);
        i := i + 1;
      }
      Finished(was, seen, done);
    }

    lemma AllStorable()
      ensures Faithful() ==> forall k :: k in contents ==> Storable(k, contents[k])
    {
      if Faithful() {
        LogIsFile(file, log, places, contents);
      }
    }

    lemma Started(was: bool)
      requires file == "" && log == [] && places == map[]
      requires was ==> forall k :: k in contents ==> Storable(k, contents[k])
      ensures Progress(was, {}, map[])
    {
    }

    /** Once every node is seen the written map is the whole map. */
    lemma Finished(was: bool, seen: set<Pair>, done: map<string, string>)
      requires Valid() && Progress(was, seen, done) && nodes <= seen
      ensures was ==> Faithful() && NoneCrossed(log)
    {
      hide Storable, LogMatches, Arranged, Linked;
      if was {
        forall k | k in contents
          ensures k in done
        {
          assert index[k] in nodes;
        }
        assert done == contents;
      }
    }

    /** A node goes to the front of its new bucket. */
    method PushFront(temp: array<Pair?>, b: nat, p: Pair, ghost built: seq<seq<Pair>>, ghost seen: set<Pair>)
      requires Linked(temp, built, seen) && b < |built| && p !in seen
      modifies temp, p`next
      ensures Linked(temp, built[b := [p] + built[b]], seen + {p})
    {
      var tmp := temp[b];
      temp[b] := p;
      p.next := tmp;
    }

    /** Moves the nodes of one old bucket, from the front, to their new buckets. */
    method MoveChain(temp: array<Pair?>, ns: nat, head: Pair?, ghost c: seq<Pair>,
                     ghost built: seq<seq<Pair>>, ghost seen: set<Pair>)
      returns (ghost built': seq<seq<Pair>>, ghost seen': set<Pair>)
      requires Arranged(hash, ns, built, seen) && Linked(temp, built, seen)
      requires head == if |c| > 0 then c[0] else null
      requires forall x :: 0 <= x < |c| ==> c[x] !in seen && c[x].next == After(c, x)
      requires Distinct(c)
      modifies temp, (set n | n in c)`next
      ensures Arranged(hash, ns, built', seen') && Linked(temp, built', seen')
      ensures forall n :: n in seen' <==> n in seen || n in c
    {
      hide Arranged, Linked, After, Slot, Distinct;
      built', seen' := built, seen;
      var cur := head;
      ghost var j := 0;
      while cur != null
        invariant 0 <= j <= |c| && cur == if j < |c| then c[j] else null
        invariant Arranged(hash, ns, built', seen') && Linked(temp, built', seen')
        invariant forall x :: j <= x < |c| ==> c[x] !in seen' && c[x].next == After(c, x)
        invariant forall n :: n in seen' <==> n in seen || n in c[..j]
        decreases |c| - j
      {
        NextNode(c, j);
        ArrangedPrepend(hash, ns, built', seen', cur);
        var pos := Slot(hash, cur.key, ns);
        var next := cur.next;
        PushFront(temp, pos, cur, built', seen');
        built', seen' := built'[pos := [cur] + built'[pos]], seen' + {cur};
        cur := next;
        j := j + 1;
      }
      assert c[..j] == c;
    }

    /** What the old buckets hold. */
    lemma Buckets()
      requires Valid()
      ensures table.Length == |chains| == size
      ensures forall b :: 0 <= b < size ==> table[b] == Head(chains[b]) && Distinct(chains[b])
      ensures forall b, x :: 0 <= b < size && 0 <= x < |chains[b]| ==>
        chains[b][x] in nodes && Slot(hash, chains[b][x].key, size) == b && chains[b][x].next == After(chains[b], x)
      ensures forall n :: n in nodes ==> n in chains[Slot(hash, n.key, size)]
    {
    }

    lemma Empty(temp: array<Pair?>, built: seq<seq<Pair>>)
      requires temp.Length == |built| > 0
      requires forall b :: 0 <= b < |built| ==> temp[b] == null && |built[b]| == 0
      ensures Arranged(hash, temp.Length, built, {}) && Linked(temp, built, {})
    {
    }

    /** Moves the nodes of all old buckets, one bucket after the other. */
    method MoveAll(oldpairs: array<Pair?>, temp: array<Pair?>, ghost was: seq<seq<Pair>>)
      returns (ghost built: seq<seq<Pair>>)
      requires oldpairs.Length == |was| > 0 && temp.Length > 0 && temp != oldpairs
      requires forall b :: 0 <= b < temp.Length ==> temp[b] == null
      requires forall b :: 0 <= b < |was| ==> oldpairs[b] == Head(was[b]) && Distinct(was[b])
      requires forall b, x :: 0 <= b < |was| && 0 <= x < |was[b]| ==>
        was[b][x] in nodes && Slot(hash, was[b][x].key, |was|) == b && was[b][x].next == After(was[b], x)
      requires forall n :: n in nodes ==> n in was[Slot(hash, n.key, |was|)]
      modifies temp, nodes`next
      ensures Arranged(hash, temp.Length, built, nodes) && Linked(temp, built, nodes)
    {
      hide Arranged, Linked, After, Slot, Distinct;
      ghost var seen := {};
      built := seq(temp.Length, _ => []);
      Empty(temp, built);
      var i := 0;
      while i < oldpairs.Length
        invariant 0 <= i <= |was|
        invariant Arranged(hash, temp.Length, built, seen) && Linked(temp, built, seen)
        invariant seen <= nodes && forall n :: n in nodes ==> (n in seen <==> Slot(hash, n.key, |was|) < i)
        invariant forall b :: 0 <= b < |was| ==> oldpairs[b] == old(oldpairs[b])
        invariant forall n :: n in nodes && n !in seen ==> n.next == old(n.next)
      {
        built, seen := MoveChain(temp, temp.Length, oldpairs[i], was[i], built, seen);
        i := i + 1;
      }
      assert seen == nodes;
    }

    /** Enlarges the table.  The count of elements is zeroed and not taken again. */
    method Resize(ns: nat)
      requires Valid() && ns > 0
      modifies this`size, this`table, this`numEl, this`chains, nodes`next
      ensures Valid() && size == ns && fresh(table) && numEl == 0
    {
      hide Arranged, Linked, After, Slot, Distinct, Head, Indexed;
      var temp := new Pair?[ns](_ => null);
      Sized();
      Buckets();
      chains := MoveAll(table, temp, chains);
      numEl := 0;
      size := ns;
      table := temp;
    }
  }

  /** A put that grows a table with keys in it loses the count: here two keys are counted as one. */
  method CountIsLost(hash: string -> nat) returns (t: NoVoHT)
    ensures fresh(t) && t.Valid() && t.contents == map["a" := "x", "b" := "y"] && t.numEl == 1 && !t.Counted()
  {
    hide NoVoHT.Valid, NoVoHT.Faithful, Storable;
    t := new NoVoHT(hash, 1, 1, 1.0);
    t.Put("a", "x");
    t.Put("b", "y");
    assert t.contents == map["a" := "x", "b" := "y"];
    PutSize(map["a" := "x"], "b", "y");
  }

  // Whole runs

  datatype Op = Put(key: string, val: string) | Remove(key: string)

  /** The map that a run of operations stands for. */
  function Meaning(ops: seq<Op>): map<string, string> {
    if |ops| == 0 then map[] else Applied(Meaning(ops[..|ops| - 1]), ops[|ops| - 1])
  }

  predicate AllStorable(ops: seq<Op>) {
    forall i :: 0 <= i < |ops| && ops[i].Put? ==> Storable(ops[i].key, ops[i].val)
  }

  function Applied(m: map<string, string>, op: Op): map<string, string> {
    match op
    case Put(k, v) => m[k := v]
    case Remove(k) => m - {k}
  }

  lemma MeaningNext(ops: seq<Op>, i: nat)
    requires i < |ops|
    ensures Meaning(ops[..i + 1]) == Applied(Meaning(ops[..i]), ops[i])
  {
    assert ops[..i + 1][..i] == ops[..i];
  }

  method Apply(t: NoVoHT, op: Op)
    requires t.Valid() && t.Faithful() && (op.Put? ==> Storable(op.key, op.val))
    modifies t, t.table, t.nodes`next, t.nodes`val, t.nodes`pos
    ensures t.Valid() && t.Faithful() && t.contents == Applied(old(t.contents), op)
    ensures fresh(t.nodes - old(t.nodes)) && (t.table == old(t.table) || fresh(t.table))
  {
    hide NoVoHT.Valid, NoVoHT.Faithful, NoVoHT.Counted, Storable;
    match op {
      case Put(k, v) => t.Put(k, v);
      case Remove(k) => var _ := t.Remove(k);
    }
  }

  /** From an empty file, after any run of puts of storable pairs and removals, with whatever
      growth and compaction they cause, the table and the file both hold the map of the run. */
  method Replay(hash: string -> nat, size: nat, magic: int, ratio: real, ops: seq<Op>) returns (t: NoVoHT)
    requires size > 0 && AllStorable(ops)
    ensures t.Valid() && t.contents == Meaning(ops) && Image(t.file) == Meaning(ops)
  {
    hide NoVoHT.Valid, NoVoHT.Faithful, NoVoHT.Counted, Storable, Image;
    t := new NoVoHT(hash, size, magic, ratio);
    for i := 0 to |ops|
      invariant fresh(t) && fresh(t.table) && fresh(t.nodes)
      invariant t.Valid() && t.Faithful() && t.contents == Meaning(ops[..i])
    {
      MeaningNext(ops, i);
      Apply(t, ops[i]);
    }
    assert ops[..|ops|] == ops;
    t.FileIsContents();
  }
}
