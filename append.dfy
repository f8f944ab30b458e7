/**
 * `append.py`: renaming specimen files by editing the `{key_value}` pairs of
 * their names. Each operation reads the pairs, edits the list, and writes
 * the name back with `assemble_new_filepath`; the model returns the new
 * path that `os.rename` would receive.
 */
module Append {
  import opened Wrappers
  import opened Text
  import opened Utils

  /** `"%s" % v`: Python renders a missing option as `None`. */
  function PyStr(v: Option<string>): string
  {
    if v.None? then "None" else v.value
  }

  /** `"%s_%s" % (key, value)` */
  function PairOf(key: string, value: string): string
  {
    key + "_" + value
  }

  /** The directory part of a path with its trailing `/`, or "" for a bare name. */
  function DirPart(path: string): string
  {
    var parts := Split(path, '/');
    if |parts| == 1 then "" else Join(parts[..|parts| - 1], "/") + "/"
  }

  /** A path is its directory part followed by its last `/` segment. */
  lemma PathIsDirAndName(path: string)
    ensures path == DirPart(path) + LastPart(path, '/')
  {
    var parts := Split(path, '/');
    var sep: string := ['/'];
    assert sep == "/";
    SplitJoin(path, '/');
    var last := parts[|parts| - 1];
    if |parts| > 1 {
      var init := parts[..|parts| - 1];
      assert parts == init + [last];
      JoinSnoc(init, sep, last);
      calc {
        path;
        Join(parts, sep);
        Join(init, sep) + sep + last;
        DirPart(path) + LastPart(path, '/');
      }
    }
  }

  /** The name `assemble_new_filepath` builds: the `{pair}` tokens, then the text after the path's last `.`. */
  function NewName(path: string, pairs: seq<string>): string
  {
    Braced(pairs) + "." + LastPart(path, '.')
  }

  /** `assemble_new_filepath(old_filepath, kv_pairs)` */
  function AssembleNewFilepath(path: string, pairs: seq<string>): (r: string)
    ensures r == DirPart(path) + NewName(path, pairs)
  {
    var splitPath := Split(path, '/');
    var newFilename := Join([Concat(BracedEach(pairs)), LastPart(path, '.')], ".");
    assert newFilename == NewName(path, pairs) by {
      BracedEachConcat(pairs);
      JoinSnoc([Concat(BracedEach(pairs))], ".", LastPart(path, '.'));
    }
    var kept := splitPath[..|splitPath| - 1] + [newFilename];
    if |splitPath| > 1 then
      JoinSnoc(splitPath[..|splitPath| - 1], "/", newFilename);
      Join(kept, "/")
    else
      assert kept == [newFilename];
      Join(kept, "/")
  }

  /** `["{%s}" % pair for pair in kv_pairs]` */
  function BracedEach(pairs: seq<string>): (r: seq<string>)
    ensures |r| == |pairs|
  {
    seq(|pairs|, i requires 0 <= i < |pairs| => "{" + pairs[i] + "}")
  }

  lemma {:induction false} BracedEachConcat(pairs: seq<string>)
    ensures Concat(BracedEach(pairs)) == Braced(pairs)
    decreases |pairs|
  {
    if |pairs| > 0 {
      BracedEachConcat(pairs[1..]);
      assert BracedEach(pairs)[1..] == BracedEach(pairs[1..]);
    }
  }

  /** The `{pair}` tokens of well-formed pairs hold no `/`. */
  lemma {:induction false} BracedNoSlash(pairs: seq<string>)
    requires forall k :: 0 <= k < |pairs| ==> IsPair(pairs[k])
    ensures '/' !in Braced(pairs)
    decreases |pairs|
  {
    if |pairs| > 0 {
      BracedNoSlash(pairs[1..]);
      assert IsPair(pairs[0]);
      assert '/' !in pairs[0] by {
        forall k | 0 <= k < |pairs[0]| ensures pairs[0][k] != '/' {
          assert IsWordDashChar(pairs[0][k]);
        }
      }
      assert Braced(pairs) == "{" + pairs[0] + "}" + Braced(pairs[1..]);
    }
  }

  /** The new path keeps the old directory; its last segment is the new name. */
  lemma AssembleNewFilepathParts(path: string, pairs: seq<string>)
    requires forall k :: 0 <= k < |pairs| ==> IsPair(pairs[k])
    requires '/' !in LastPart(path, '.')
    ensures var r := AssembleNewFilepath(path, pairs);
      DirPart(r) == DirPart(path) && LastPart(r, '/') == NewName(path, pairs)
  {
    var name := NewName(path, pairs);
    var parts := Split(path, '/');
    var dirs := parts[..|parts| - 1];
    var keep := dirs + [name];
    assert Split(AssembleNewFilepath(path, pairs), '/') == keep by {
      assert '/' !in name by {
        BracedNoSlash(pairs);
      }
      assert forall k :: 0 <= k < |dirs| ==> '/' !in dirs[k] by {
        SplitJoin(path, '/');
      }
      assert AssembleNewFilepath(path, pairs) == Join(keep, "/") by {
        if |parts| > 1 {
          JoinSnoc(dirs, "/", name);
        } else {
          assert keep == [name];
        }
      }
      JoinSplit(keep, '/');
    }
    assert keep[..|keep| - 1] == dirs;
  }

  /** The new name reads back as exactly the pairs written, when the extension holds no `{`. */
  lemma NewNameReadsBack(path: string, pairs: seq<string>)
    requires forall k :: 0 <= k < |pairs| ==> IsPair(pairs[k])
    requires '{' !in LastPart(path, '.')
    ensures GetKvPairs(NewName(path, pairs)) == pairs
  {
    var tail := "." + LastPart(path, '.');
    assert '{' !in tail;
    assert NewName(path, pairs) == Braced(pairs) + tail;
    KvPairsOfBraced(pairs, tail);
    PairsNoBrace(tail);
    assert pairs + [] == pairs;
  }

  // ------------------------------------------------------------ append_or_change_filename

  /** The index of the first pair whose key is `key`. */
  function FirstWithKey(pairs: seq<string>, key: string): (r: Option<nat>)
    ensures r.Some? ==> r.value < |pairs| && KeyOf(pairs[r.value]) == key
    ensures r.Some? ==> forall j :: 0 <= j < r.value ==> KeyOf(pairs[j]) != key
    ensures r.None? <==> forall j :: 0 <= j < |pairs| ==> KeyOf(pairs[j]) != key
    decreases |pairs|
  {
    if |pairs| == 0 then None
    else if KeyOf(pairs[0]) == key then Some(0)
    else match FirstWithKey(pairs[1..], key)
      case None => None
      case Some(i) => Some(i + 1)
  }

  /** The first pair with the key is the one `FirstWithKey` finds. */
  lemma FirstWithKeyIs(pairs: seq<string>, key: string, i: nat)
    requires i < |pairs| && KeyOf(pairs[i]) == key
    requires forall j :: 0 <= j < i ==> KeyOf(pairs[j]) != key
    ensures FirstWithKey(pairs, key) == Some(i)
  {
  }

  /**
   * The pairs after `append_or_change_filename`: the first pair with `key`
   * is renamed to `newkey` keeping its value, or given `value` when there is
   * no `newkey`; with no such pair, `key_value` is appended.
   */
  function ChangedPairs(pairs: seq<string>, key: string, newkey: Option<string>, value: Option<string>): seq<string>
  {
    match FirstWithKey(pairs, key)
    case Some(i) =>
      pairs[i := if newkey.Some? then PairOf(newkey.value, ValueOf(pairs[i])) else PairOf(key, PyStr(value))]
    case None => pairs + [PairOf(key, PyStr(value))]
  }

  /**
   * Only the first pair carrying the key is edited: every other pair keeps
   * its place and contents.
   */
  lemma ChangeEditsFirstMatch(pairs: seq<string>, key: string, newkey: Option<string>, value: Option<string>, i: nat)
    requires i < |pairs| && KeyOf(pairs[i]) == key
    requires forall j :: 0 <= j < i ==> KeyOf(pairs[j]) != key
    ensures var r := ChangedPairs(pairs, key, newkey, value);
      |r| == |pairs|
      && (forall j :: 0 <= j < |pairs| && j != i ==> r[j] == pairs[j])
      && (newkey.Some? ==> r[i] == newkey.value + "_" + ValueOf(pairs[i]))
      && (newkey.None? ==> r[i] == key + "_" + PyStr(value))
  {
    FirstWithKeyIs(pairs, key, i);
  }

  /** A key that is absent is appended as `key_value`, in rename mode too. */
  lemma ChangeAppendsAbsent(pairs: seq<string>, key: string, newkey: Option<string>, value: Option<string>)
    requires forall j :: 0 <= j < |pairs| ==> KeyOf(pairs[j]) != key
    ensures ChangedPairs(pairs, key, newkey, value) == pairs + [key + "_" + PyStr(value)]
  {
  }

  /** A pair written as `key_value` with no `_` in the key reads back that key. */
  lemma KeyOfPair(key: string, value: string)
    requires '_' !in key
    ensures KeyOf(PairOf(key, value)) == key
  {
    assert PairOf(key, value) == key + ['_'] + value;
    SplitHead(key, '_', value);
  }

  /**
   * `append_or_change_filename(file, key, newkey, value)`: the path the file
   * is renamed to. The pairs come from the whole path, as `get_kv_pairs(file)`
   * reads it.
   */
  method AppendOrChangeFilename(file: string, key: string, newkey: Option<string>, value: Option<string>)
    returns (newFilepath: string)
    ensures newFilepath == AssembleNewFilepath(file, ChangedPairs(GetKvPairs(file), key, newkey, value))
  {
    var appendix := PairOf(key, PyStr(value));
    var override := false;
    var kvPairs := GetKvPairs(file);
    ghost var pairs := kvPairs;
    var keys := seq(|kvPairs|, i requires 0 <= i < |kvPairs| => KeyOf(kvPairs[i]));
    var values := seq(|kvPairs|, i requires 0 <= i < |kvPairs| => ValueOf(kvPairs[i]));
    var i := 0;
    while i < |keys|
      invariant 0 <= i <= |keys| && !override && kvPairs == pairs
      invariant forall j :: 0 <= j < i ==> KeyOf(pairs[j]) != key
    {
      if keys[i] == key && newkey.Some? {
        override := true;
        kvPairs := kvPairs[i := PairOf(newkey.value, values[i])];
        break;
      } else if keys[i] == key && newkey.None? {
        override := true;
        kvPairs := kvPairs[i := PairOf(key, PyStr(value))];
        break;
      }
      i := i + 1;
    }
    if !override {
      kvPairs := kvPairs + [appendix];
      ChangeAppendsAbsent(pairs, key, newkey, value);
    } else {
      ChangeEditsFirstMatch(pairs, key, newkey, value, i);
      assert kvPairs == ChangedPairs(pairs, key, newkey, value);
    }
    newFilepath := AssembleNewFilepath(file, kvPairs);
  }

  // ------------------------------------------------------------ delete_key

  /** `file.split("/")[-1].split(".")[0]`: the name up to its first `.`. */
  function KvString(file: string): string
  {
    Split(LastPart(file, '/'), '.')[0]
  }

  /** The pairs with the first one carrying `key` removed (`kv_pairs.pop(i)`). */
  function WithoutFirstKey(pairs: seq<string>, key: string): seq<string>
  {
    match FirstWithKey(pairs, key)
    case Some(i) => pairs[..i] + pairs[i + 1..]
    case None => pairs
  }

  /** Deleting a key no pair carries changes nothing. */
  lemma DeleteAbsentKeeps(pairs: seq<string>, key: string)
    requires forall j :: 0 <= j < |pairs| ==> KeyOf(pairs[j]) != key
    ensures WithoutFirstKey(pairs, key) == pairs
  {
  }

  /**
   * Deleting removes exactly the first pair with the key: the pairs before it
   * stay and the pairs after it move up one place.
   */
  lemma DeleteRemovesFirstMatch(pairs: seq<string>, key: string, i: nat)
    requires i < |pairs| && KeyOf(pairs[i]) == key
    requires forall j :: 0 <= j < i ==> KeyOf(pairs[j]) != key
    ensures var r := WithoutFirstKey(pairs, key);
      |r| == |pairs| - 1 && forall j :: 0 <= j < |r| ==> r[j] == (if j < i then pairs[j] else pairs[j + 1])
  {
    FirstWithKeyIs(pairs, key, i);
  }

  /** `delete_key` on one file: the path it is renamed to. */
  method DeleteKeyFile(file: string, key: string) returns (newFilepath: string)
    ensures newFilepath == AssembleNewFilepath(file, WithoutFirstKey(GetKvPairs(KvString(file)), key))
  {
    var kvPairs := GetKvPairs(KvString(file));
    ghost var pairs := kvPairs;
    var i := 0;
    while i < |kvPairs|
      invariant 0 <= i <= |kvPairs| && kvPairs == pairs
      invariant forall j :: 0 <= j < i ==> KeyOf(pairs[j]) != key
    {
      if KeyOf(kvPairs[i]) == key {
        kvPairs := kvPairs[..i] + kvPairs[i + 1..];
        FirstWithKeyIs(pairs, key, i);
        break;
      }
      i := i + 1;
    }
    if i == |pairs| {
      DeleteAbsentKeeps(pairs, key);
    }
    newFilepath := AssembleNewFilepath(file, kvPairs);
  }

  // ------------------------------------------------------------ do_uid_insert and replace_uid_year

  /** `pair.split("_")[0].lower() == "uid"` */
  predicate IsUidPair(pair: string)
  {
    Lower(KeyOf(pair)) == "uid"
  }

  /** `"-".join(old_uid.split("-")[:-1] + [uid_insert] + [old_uid.split("-")[-1]])` */
  function InsertIntoUid(uid: string, ins: string): string
  {
    var parts := Split(uid, '-');
    Join(parts[..|parts| - 1] + [ins] + [parts[|parts| - 1]], "-")
  }

  /** `"-".join(old_uid.split("-")[:-1] + [str(uid_year)])` */
  function ReplaceYear(uid: string, year: int): string
  {
    var parts := Split(uid, '-');
    Join(parts[..|parts| - 1] + [IntToString(year)], "-")
  }

  /**
   * The inserted value becomes the second-to-last `-` segment: every segment
   * of the old UID keeps its place, and the last one (the year) stays last.
   */
  lemma InsertIntoUidSegments(uid: string, ins: string)
    requires '-' !in ins
    ensures var parts := Split(uid, '-');
      Split(InsertIntoUid(uid, ins), '-') == parts[..|parts| - 1] + [ins, parts[|parts| - 1]]
  {
    var parts := Split(uid, '-');
    var q := parts[..|parts| - 1] + [ins] + [parts[|parts| - 1]];
    SplitJoin(uid, '-');
    forall k | 0 <= k < |q| ensures '-' !in q[k] {
      if k < |parts| - 1 {
        assert q[k] == parts[k];
      } else if k > |parts| - 1 {
        assert q[k] == parts[|parts| - 1];
      }
    }
    JoinSplit(q, '-');
    var sep: string := ['-'];
    assert sep == "-";
    assert InsertIntoUid(uid, ins) == Join(q, sep);
    assert q == parts[..|parts| - 1] + [ins, parts[|parts| - 1]];
  }

  /** The year replaces the last `-` segment; the segments before it are kept. */
  lemma ReplaceYearSegments(uid: string, year: nat)
    ensures var parts := Split(uid, '-');
      Split(ReplaceYear(uid, year), '-') == parts[..|parts| - 1] + [IntToString(year)]
  {
    var parts := Split(uid, '-');
    var q := parts[..|parts| - 1] + [IntToString(year)];
    SplitJoin(uid, '-');
    assert '-' !in IntToString(year) by {
      var s := IntToString(year);
      forall k | 0 <= k < |s| ensures s[k] != '-' {
        assert IsDigit(s[k]);
      }
    }
    forall k | 0 <= k < |q| ensures '-' !in q[k] {
      if k < |parts| - 1 {
        assert q[k] == parts[k];
      }
    }
    JoinSplit(q, '-');
    var sep: string := ['-'];
    assert sep == "-";
    assert ReplaceYear(uid, year) == Join(q, sep);
  }

  /** The pair every UID pair becomes in `do_uid_insert`. */
  function UidInsertedPair(pair: string, ins: string): string
  {
    "UID_" + InsertIntoUid(ValueOf(pair), ins)
  }

  /** The pair every UID pair becomes in `replace_uid_year`. */
  function UidYearPair(pair: string, year: int): string
  {
    "UID_" + ReplaceYear(ValueOf(pair), year)
  }

  /** Both rewrites give the pair the key `UID`, whatever the case of the old key. */
  lemma RewrittenUidKey(rest: string)
    ensures KeyOf("UID_" + rest) == "UID" && IsUidPair("UID_" + rest)
  {
    KeyOfPair("UID", rest);
    assert PairOf("UID", rest) == "UID_" + rest;
  }

  /** `"_".join(["UID", v])` */
  lemma UidJoin(v: string)
    ensures Join(["UID", v], "_") == "UID_" + v
  {
    JoinSnoc(["UID"], "_", v);
    assert ["UID"] + [v] == ["UID", v];
  }

  /** `do_uid_insert` on one file: every UID pair (not just the first) is rewritten, the others kept. */
  method DoUidInsertFile(file: string, uidInsert: string) returns (newFilepath: string, kvPairs: seq<string>)
    ensures var pairs := GetKvPairs(KvString(file));
      |kvPairs| == |pairs|
      && (forall i :: 0 <= i < |pairs| ==> kvPairs[i] == if IsUidPair(pairs[i]) then UidInsertedPair(pairs[i], uidInsert) else pairs[i])
      && newFilepath == AssembleNewFilepath(file, kvPairs)
  {
    kvPairs := GetKvPairs(KvString(file));
    ghost var pairs := kvPairs;
    for i := 0 to |kvPairs|
      invariant |kvPairs| == |pairs|
      invariant forall j :: 0 <= j < i ==> kvPairs[j] == if IsUidPair(pairs[j]) then UidInsertedPair(pairs[j], uidInsert) else pairs[j]
      invariant forall j :: i <= j < |pairs| ==> kvPairs[j] == pairs[j]
    {
      if Lower(KeyOf(kvPairs[i])) == "uid" {
        var newUid := InsertIntoUid(ValueOf(kvPairs[i]), uidInsert);
        UidJoin(newUid);
        kvPairs := kvPairs[i := Join(["UID", newUid], "_")];
      }
    }
    newFilepath := AssembleNewFilepath(file, kvPairs);
  }

  /** `replace_uid_year` on one file: every UID pair gets the year as its last segment, the others are kept. */
  method ReplaceUidYearFile(file: string, uidYear: int) returns (newFilepath: string, kvPairs: seq<string>)
    ensures var pairs := GetKvPairs(KvString(file));
      |kvPairs| == |pairs|
      && (forall i :: 0 <= i < |pairs| ==> kvPairs[i] == if IsUidPair(pairs[i]) then UidYearPair(pairs[i], uidYear) else pairs[i])
      && newFilepath == AssembleNewFilepath(file, kvPairs)
  {
    kvPairs := GetKvPairs(KvString(file));
    ghost var pairs := kvPairs;
    for i := 0 to |kvPairs|
      invariant |kvPairs| == |pairs|
      invariant forall j :: 0 <= j < i ==> kvPairs[j] == if IsUidPair(pairs[j]) then UidYearPair(pairs[j], uidYear) else pairs[j]
      invariant forall j :: i <= j < |pairs| ==> kvPairs[j] == pairs[j]
    {
      if Lower(KeyOf(kvPairs[i])) == "uid" {
        var newUid := ReplaceYear(ValueOf(kvPairs[i]), uidYear);
        UidJoin(newUid);
        kvPairs := kvPairs[i := Join(["UID", newUid], "_")];
      }
    }
    newFilepath := AssembleNewFilepath(file, kvPairs);
  }
}
