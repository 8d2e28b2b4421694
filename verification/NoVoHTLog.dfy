/** The file behind the persistent hash table (`NoVoHT`): tab-separated records, appended on
    every put, crossed out by a '~' over their first character, and read back field by field.

    File contents are sequences of 8-bit characters. */
module NoVoHTLog {
  import opened Basics

  const FIELD_LIMIT: nat := 300

  /** The character 0xFF, which the reader cannot tell from the end of the file. */
  const EOF_CHAR: char := 255 as char
  const NUL: char := 0 as char

  /** What a C string operation sees of a string. */
  function CStr(s: string): (r: string)
    ensures |r| <= |s|
    ensures forall c :: c in r ==> c in s && c != NUL
    ensures NUL !in s ==> r == s
  {
    if |s| == 0 || s[0] == NUL then "" else [s[0]] + CStr(s[1..])
  }

  datatype Record = Record(key: string, val: string)

  /** What one write appends. */
  function Text(key: string, val: string): string {
    CStr(key) + "\t" + CStr(val) + "\t"
  }

  /** What compaction writes for one pair: nothing when the key or the value is empty. */
  function Kept(key: string, val: string): string {
    if key != "" && val != "" then Text(key, val) else ""
  }

  /** The characters up to the first tab or end mark. */
  function Field(s: string): (f: string)
    ensures |f| <= |s|
    ensures forall c :: c in f ==> c != '\t' && c != EOF_CHAR
    ensures |f| < |s| ==> s[|f|] == '\t' || s[|f|] == EOF_CHAR
  {
    if |s| == 0 || s[0] == '\t' || s[0] == EOF_CHAR then "" else [s[0]] + Field(s[1..])
  }

  /** `readTabString`: a field and the rest of the file.  A field of 300 characters or more
      does not fit the reader's buffer and counts as unreadable. */
  function ReadTab(s: string): (r: Option<(string, string)>)
    ensures r.Some? ==> |r.value.1| < |s|
  {
    var f := Field(s);
    if |f| >= FIELD_LIMIT then None
    else if |f| < |s| && s[|f|] == '\t' then Some((f, s[|f| + 1..]))
    else if |f| == 0 then None
    else Some((f, if |f| < |s| then s[|f| + 1..] else ""))
  }

  /** The records the reader finds. */
  function Records(s: string): seq<Record>
    decreases |s|
  {
    match ReadTab(s)
    case None => []
    case Some((k, r)) =>
      match ReadTab(r)
      case None => []
      case Some((v, rest)) => [Record(CStr(k), CStr(v))] + Records(rest)
  }

  predicate CrossedOut(key: string) {
    |key| > 0 && key[0] == '~'
  }

  /** The table the records rebuild: later ones win and crossed-out ones are skipped. */
  function Load(rs: seq<Record>): map<string, string> {
    if |rs| == 0 then map[] else
      var r := rs[|rs| - 1];
      var m := Load(rs[..|rs| - 1]);
      if CrossedOut(r.key) then m else m[r.key := r.val]
  }

  function Image(file: string): map<string, string> {
    Load(Records(file))
  }

  /** Text that comes back as one field. */
  predicate Clean(s: string) {
    |s| < FIELD_LIMIT && '\t' !in s && EOF_CHAR !in s && NUL !in s
  }

  predicate Storable(key: string, val: string) {
    Clean(key) && Clean(val) && key != "" && val != "" && !CrossedOut(key)
  }

  lemma {:induction false} FieldOfClean(s: string, rest: string)
    requires '\t' !in s && EOF_CHAR !in s
    ensures Field(s + "\t" + rest) == s
  {
    var t := s + "\t" + rest;
    if |s| == 0 {
      assert t[0] == '\t';
    } else {
      FieldOfClean(s[1..], rest);
      assert t[1..] == s[1..] + "\t" + rest;
      assert s[0] in s && t[0] == s[0];
    }
  }

  lemma ReadTabOfClean(s: string, rest: string)
    requires Clean(s)
    ensures ReadTab(s + "\t" + rest) == Some((s, rest))
  {
    FieldOfClean(s, rest);
    var t := s + "\t" + rest;
    assert t[|s|] == '\t';
    assert t[|s| + 1..] == rest;
  }

  /** A record of a log. */
  predicate WellFormed(r: Record) {
    Clean(r.key) && Clean(r.val) && r.key != "" && r.val != ""
  }

  function Flat(log: seq<Record>): string {
    if |log| == 0 then "" else Text(log[0].key, log[0].val) + Flat(log[1..])
  }

  /** A well-formed record at the front is read back as itself. */
  lemma RecordRead(r: Record, rest: string)
    requires WellFormed(r)
    ensures Records(Text(r.key, r.val) + rest) == [r] + Records(rest)
  {
    hide ReadTab;
    ReadTabOfClean(r.val, rest);
    ReadTabOfClean(r.key, r.val + "\t" + rest);
    assert Text(r.key, r.val) + rest == r.key + "\t" + (r.val + "\t" + rest);
  }

  /** Reading a log back gives its records. */
  lemma {:induction false} RecordsOfFlat(log: seq<Record>)
    requires forall r :: r in log ==> WellFormed(r)
    ensures Records(Flat(log)) == log
  {
    hide Text, WellFormed, Records;
    if |log| > 0 {
      assert forall q :: q in log[1..] ==> q in log;
      RecordsOfFlat(log[1..]);
      RecordRead(log[0], Flat(log[1..]));
    } else {
      NothingRead();
    }
  }

  lemma NothingRead()
    ensures Records("") == []
  {
  }

  lemma {:induction false} FlatSplit(a: seq<Record>, b: seq<Record>)
    ensures Flat(a + b) == Flat(a) + Flat(b)
  {
    hide Text;
    if |a| == 0 {
      assert a + b == b;
    } else {
      FlatSplit(a[1..], b);
      assert (a + b)[1..] == a[1..] + b;
      Associative(Text(a[0].key, a[0].val), Flat(a[1..]), Flat(b));
    }
  }

  lemma Associative(a: string, b: string, c: string)
    ensures a + (b + c) == a + b + c
  {
  }

  lemma FlatAppend(log: seq<Record>, r: Record)
    ensures Flat(log + [r]) == Flat(log) + Text(r.key, r.val)
  {
    FlatSplit(log, [r]);
    assert [r][1..] == [];
    assert Flat([r]) == Text(r.key, r.val) + Flat([]);
  }

  /** Where record i of a log begins in the file. */
  function Offset(log: seq<Record>, i: nat): nat
    requires i <= |log|
  {
    |Flat(log[..i])|
  }

  function Cross(r: Record): Record
    requires r.key != ""
  {
    Record("~" + r.key[1..], r.val)
  }

  lemma FlatThree(log: seq<Record>, i: nat)
    requires i < |log|
    ensures Flat(log) == Flat(log[..i]) + Text(log[i].key, log[i].val) + Flat(log[i + 1..])
  {
    hide Text;
    assert log == log[..i] + log[i..];
    FlatSplit(log[..i], log[i..]);
    assert log[i..][1..] == log[i + 1..];
  }

  /** Crossing out a record replaces its first character. */
  lemma CrossedText(r: Record)
    requires WellFormed(r)
    ensures WellFormed(Cross(r)) && CrossedOut(Cross(r).key)
    ensures 0 < |Text(r.key, r.val)| == |Text(Cross(r).key, Cross(r).val)|
    ensures Text(Cross(r).key, Cross(r).val) == Text(r.key, r.val)[0 := '~']
  {
    var x := Cross(r);
    assert forall c :: c in x.key ==> c == '~' || c in r.key;
  }

  lemma UpdatedMiddle(a: string, t: string, b: string, c: char)
    requires |t| > 0
    ensures (a + t + b)[|a| := c] == a + t[0 := c] + b
  {
  }

  lemma ReplacedSlices<T>(s: seq<T>, i: nat, x: T, j: nat)
    requires i < |s| && j <= |s|
    ensures j <= i ==> s[i := x][..j] == s[..j]
    ensures s[i := x][i + 1..] == s[i + 1..]
    ensures j > i ==> s[i := x][..j] == s[..j][i := x]
  {
  }

  /** Replacing a record by one of the same length moves no other record. */
  lemma FlatReplaced(log: seq<Record>, i: nat, x: Record)
    requires i < |log| && |Text(x.key, x.val)| == |Text(log[i].key, log[i].val)|
    ensures |Flat(log[i := x])| == |Flat(log)|
    ensures Flat(log[i := x]) == Flat(log[..i]) + Text(x.key, x.val) + Flat(log[i + 1..])
  {
    hide Text, Flat;
    var after := log[i := x];
    ReplacedSlices(log, i, x, i);
    FlatThree(log, i);
    FlatThree(after, i);
  }

  /** Overwriting the first character of a record crosses out that record and no other. */
  lemma CrossOut(log: seq<Record>, i: nat)
    requires i < |log| && WellFormed(log[i])
    ensures Offset(log, i) < |Flat(log)|
    ensures Flat(log)[Offset(log, i) := '~'] == Flat(log[i := Cross(log[i])])
  {
    hide Text, Flat;
    CrossedText(log[i]);
    FlatThree(log, i);
    FlatReplaced(log, i, Cross(log[i]));
    UpdatedMiddle(Flat(log[..i]), Text(log[i].key, log[i].val), Flat(log[i + 1..]), '~');
  }

  /** Crossing out moves nothing. */
  lemma CrossOutMovesNothing(log: seq<Record>, i: nat, j: nat)
    requires i < |log| && WellFormed(log[i]) && j <= |log|
    ensures Offset(log[i := Cross(log[i])], j) == Offset(log, j)
  {
    hide Text, Flat;
    var x := Cross(log[i]);
    CrossedText(log[i]);
    ReplacedSlices(log, i, x, j);
    if j > i {
      assert log[..j][i] == log[i];
      FlatReplaced(log[..j], i, x);
    }
  }

  /** When the records that are not crossed out have distinct keys, the table they rebuild
      maps exactly those keys, each to its record's value. */
  lemma {:induction false} LoadLive(rs: seq<Record>)
    requires forall i, j :: 0 <= i < j < |rs| && !CrossedOut(rs[i].key) && !CrossedOut(rs[j].key) ==>
               rs[i].key != rs[j].key
    ensures forall i :: 0 <= i < |rs| && !CrossedOut(rs[i].key) ==>
              rs[i].key in Load(rs) && Load(rs)[rs[i].key] == rs[i].val
    ensures forall k :: k in Load(rs) ==> exists i :: 0 <= i < |rs| && !CrossedOut(rs[i].key) && rs[i].key == k
  {
    if |rs| > 0 {
      var init := rs[..|rs| - 1];
      LoadLive(init);
      forall k | k in Load(rs)
        ensures exists i :: 0 <= i < |rs| && !CrossedOut(rs[i].key) && rs[i].key == k
      {
        if k in Load(init) {
          var i :| 0 <= i < |init| && !CrossedOut(init[i].key) && init[i].key == k;
          assert rs[i].key == k;
        } else {
          assert rs[|rs| - 1].key == k;
        }
      }
    }
  }

  /** Whatever a file holds, what is read from it is clean and never begins with '~'. */
  lemma {:induction false} ImageIsClean(s: string)
    ensures forall r :: r in Records(s) ==> Clean(r.key) && Clean(r.val)
    decreases |s|
  {
    match ReadTab(s)
    case None =>
    case Some((k, r)) =>
      match ReadTab(r)
      case None =>
      case Some((v, rest)) =>
        ImageIsClean(rest);
  }

  lemma {:induction false} LoadHolds(rs: seq<Record>, k: string)
    requires k in Load(rs)
    ensures !CrossedOut(k) && Record(k, Load(rs)[k]) in rs
  {
    var r := rs[|rs| - 1];
    var init := rs[..|rs| - 1];
    if CrossedOut(r.key) || k != r.key {
      LoadHolds(init, k);
    }
  }

  lemma NothingLoaded()
    ensures Image("") == map[]
  {
  }

  lemma StorableSurvives(k: string, v: string)
    requires Storable(k, v)
    ensures Image(Kept(k, v)) == map[k := v]
  {
    hide Records, Text, Load;
    var log := [Record(k, v)];
    RecordsOfFlat(log);
    assert Flat(log) == Text(k, v) by {
      assert log[1..] == [] && Flat([]) == "";
    }
    LoadLive(log);
    assert forall x :: x in Load(log) <==> x == k;
  }

  lemma SurvivorIsStorable(k: string, v: string)
    requires Image(Kept(k, v)) == map[k := v]
    ensures Storable(k, v)
  {
    hide Records, Text, Load;
    NothingLoaded();
    LoadHolds(Records(Kept(k, v)), k);
    ImageIsClean(Kept(k, v));
    assert Kept(k, v) != "";
  }

  /** A pair survives being written by compaction and read back exactly when it is storable. */
  lemma SurvivesExactlyIfStorable(k: string, v: string)
    ensures Image(Kept(k, v)) == map[k := v] <==> Storable(k, v)
  {
    if Storable(k, v) {
      StorableSurvives(k, v);
    } else if Image(Kept(k, v)) == map[k := v] {
      SurvivorIsStorable(k, v);
    }
  }

  /** Which pairs are storable, character by character. */
  lemma StorableIs(k: string, v: string)
    ensures Storable(k, v) <==>
      && 0 < |k| < 300 && 0 < |v| < 300 && k[0] != '~'
      && forall c :: c in k + v ==> c != '\t' && c as int != 0 && c as int != 255
  {
    assert forall c :: c in k + v <==> c in k || c in v;
  }

  /** The format of the file: a tab behind every key and every value, and nothing else. */
  lemma TextIs(k: string, v: string)
    requires NUL !in k && NUL !in v
    ensures Text(k, v) == k + "\t" + v + "\t"
  {
  }

  lemma FlatOfTwo(r: Record, x: Record)
    ensures Flat([r, x]) == Text(r.key, r.val) + Text(x.key, x.val)
  {
    hide Text;
    assert [r, x][1..] == [x] && [x][1..] == [];
    assert Flat([]) == "" && Flat([x]) == Text(x.key, x.val) + Flat([]);
  }

  lemma LoadOfTwo(r: Record, x: Record)
    requires !CrossedOut(r.key) && CrossedOut(x.key)
    ensures Load([r, x]) == map[r.key := r.val]
  {
    assert [r, x][..1] == [r] && [r][..0] == [];
    assert Load([r]) == map[][r.key := r.val];
  }

  /** Such text is read back as its records, and a '~' at the front of a key marks one that counts
      no longer. */
  lemma FormatIs(k: string, v: string, x: string, w: string)
    requires Storable(k, v) && WellFormed(Record("~" + x, w))
    ensures var file := (k + "\t" + v + "\t") + (("~" + x) + "\t" + w + "\t");
            Records(file) == [Record(k, v), Record("~" + x, w)] && Image(file) == map[k := v]
  {
    var r, y := Record(k, v), Record("~" + x, w);
    TextIs(k, v);
    TextIs("~" + x, w);
    hide Text, Flat, Records, Load;
    FlatOfTwo(r, y);
    RecordsOfFlat([r, y]);
    LoadOfTwo(r, y);
  }
}
