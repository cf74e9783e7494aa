/** The string and list helpers of ARTIQ's command-line tools: the
    `format_arguments` rendering of an argument map, the module name and the
    search-path handling of `file_import`, and the level `init_logger` sets.
    The module loading itself, the line cache and path resolution are not
    modelled: the resolved directory and whether loading succeeds are parameters. */
module Tools {
  import opened StringOrder
  import PyStr

  // ---------------------------------------------------------------------------
  // format_arguments

  /** The items `k=repr(v)` for the keys `ks`, in that order. */
  function Items<V>(ks: seq<string>, arguments: map<string, V>, repr: V -> string): (r: seq<string>)
    requires forall i :: 0 <= i < |ks| ==> ks[i] in arguments
    ensures |r| == |ks|
    ensures forall i :: 0 <= i < |r| ==> r[i] == ks[i] + "=" + repr(arguments[ks[i]])
  {
    if ks == [] then [] else [ks[0] + "=" + repr(arguments[ks[0]])] + Items(ks[1..], arguments, repr)
  }

  lemma KeysInMap<V>(ks: seq<string>, arguments: map<string, V>)
    requires Elems(ks) == arguments.Keys
    ensures forall i :: 0 <= i < |ks| ==> ks[i] in arguments
  {
    forall i | 0 <= i < |ks| ensures ks[i] in arguments {
      assert ks[i] in Elems(ks);
    }
  }

  /** The sorted key list of a map only names keys of that map. */
  lemma SortedKeysInMap<V>(arguments: map<string, V>)
    ensures forall i :: 0 <= i < |SortedKeys(arguments.Keys)| ==> SortedKeys(arguments.Keys)[i] in arguments
  {
    SortedKeysSpec(arguments.Keys);
    KeysInMap(SortedKeys(arguments.Keys), arguments);
  }

  /** What `format_arguments` returns: one `k=repr(v)` item per entry, in
      ascending key order, joined by ", ". */
  ghost function Formatted<V>(arguments: map<string, V>, repr: V -> string): (r: string)
    ensures r == "" <==> |arguments| == 0
  {
    SortedKeysInMap(arguments);
    PyStr.Join(", ", Items(SortedKeys(arguments.Keys), arguments, repr))
  }

  /** The loop of `format_arguments`: one `k=repr(v)` item per key, in the
      given key order. */
  method FormatItems<V>(keys: seq<string>, arguments: map<string, V>, repr: V -> string) returns (fmtargs: seq<string>)
    requires forall i :: 0 <= i < |keys| ==> keys[i] in arguments
    ensures fmtargs == Items(keys, arguments, repr)
  {
    fmtargs := [];
    for i := 0 to |keys|
      invariant |fmtargs| == i
      invariant forall j :: 0 <= j < i ==> fmtargs[j] == keys[j] + "=" + repr(arguments[keys[j]])
    {
      fmtargs := fmtargs + [keys[i] + "=" + repr(arguments[keys[i]])];
    }
  }

  /** `format_arguments(arguments)`, with `repr` standing for Python's repr. */
  method FormatArguments<V>(arguments: map<string, V>, repr: V -> string) returns (r: string)
    ensures r == Formatted(arguments, repr)
    ensures r == "" <==> |arguments| == 0
  {
    var keys := Sort(arguments.Keys);
    KeysInMap(keys, arguments);
    var fmtargs := FormatItems(keys, arguments, repr);
    if fmtargs != [] {
      r := PyStr.Join(", ", fmtargs);
    } else {
      r := "";
    }
    FormattedBySortedList(arguments, repr, keys);
  }

  /** Any ascending listing of the keys yields the same text: the result depends
      on the map alone, never on the order in which entries were added. */
  lemma FormattedBySortedList<V>(arguments: map<string, V>, repr: V -> string, ks: seq<string>)
    requires StrictlySorted(ks) && Elems(ks) == arguments.Keys
    ensures forall i :: 0 <= i < |ks| ==> ks[i] in arguments
    ensures Formatted(arguments, repr) == PyStr.Join(", ", Items(ks, arguments, repr))
  {
    forall i | 0 <= i < |ks| ensures ks[i] in arguments {
      assert ks[i] in Elems(ks);
    }
    SortedKeysSpec(arguments.Keys);
    SortedUnique(ks, SortedKeys(arguments.Keys));
  }

  /** The text opens with the least key and '='. */
  lemma FormattedStartsWithLeastKey<V>(arguments: map<string, V>, repr: V -> string, k: string)
    requires IsLeast(k, arguments.Keys)
    ensures |Formatted(arguments, repr)| > |k|
    ensures Formatted(arguments, repr)[..|k| + 1] == k + "="
  {
    SortedKeysInMap(arguments);
    var ks := SortedKeys(arguments.Keys);
    assert ks[0] == k by {
      if ks[0] != k {
        LessAsymmetric(k, ks[0]);
      }
    }
    var items := Items(ks, arguments, repr);
    assert items[0][..|k| + 1] == k + "=";
  }

  /** A single argument renders as `k=repr(v)`, with no separator. */
  lemma FormattedSingle<V>(k: string, v: V, repr: V -> string)
    ensures Formatted(map[k := v], repr) == k + "=" + repr(v)
  {
    LessIrreflexive(k);
    assert Elems([k]) == {k};
    FormattedBySortedList(map[k := v], repr, [k]);
  }

  /** Two arguments appear in ascending key order, separated by ", ". */
  lemma FormattedTwo<V>(a: string, b: string, x: V, y: V, repr: V -> string)
    requires Less(a, b)
    ensures Formatted(map[b := y, a := x], repr) == (a + "=" + repr(x)) + ", " + (b + "=" + repr(y))
  {
    assert a != b by { LessIrreflexive(a); }
    var m := map[b := y, a := x];
    var items := [a + "=" + repr(x), b + "=" + repr(y)];
    assert Elems([a, b]) == m.Keys;
    FormattedBySortedList(m, repr, [a, b]);
    assert Items([a, b], m, repr) == items;
    assert PyStr.Join(", ", items) == items[0] + ", " + items[1];
  }

  // ---------------------------------------------------------------------------
  // file_import: the module name

  const ModulePrefix: string := "file_import_"

  /** The name part `file_import` keeps: the text after the last '/', unless
      that '/' is the very first character (or there is none). */
  function BaseName(filename: string): (base: string)
    ensures |base| <= |filename| && base == filename[|filename| - |base|..]
    ensures '/' in base ==> base == filename && '/' !in filename[1..]
    ensures (exists j :: 0 < j < |filename| && filename[j] == '/') ==>
      '/' !in base && |base| < |filename| && filename[|filename| - |base| - 1] == '/'
    ensures (forall j :: 0 < j < |filename| ==> filename[j] != '/') ==> base == filename
  {
    var i := PyStr.RFind(filename, '/');
    if i > 0 then filename[i + 1..] else filename
  }

  /** `stem` is `base` cut before its first '.', unless that '.' is the very
      first character (or there is none): a '.' is left in `stem` only when
      `stem` starts with one. */
  predicate IsStem(stem: string, base: string) {
    && |stem| <= |base| && stem == base[..|stem|]
    && (|stem| < |base| ==> 0 < |stem| && base[|stem|] == '.' && '.' !in stem)
    && ('.' in stem ==> stem[0] == '.')
  }

  /** A base name has only one stem, so `IsStem` fixes the module name. */
  lemma StemIsUnique(s1: string, s2: string, base: string)
    requires IsStem(s1, base) && IsStem(s2, base)
    ensures s1 == s2
  {
  }

  /** The module name `file_import` derives from a file name. */
  method ModuleName(filename: string) returns (modname: string)
    ensures |modname| >= |ModulePrefix| && modname[..|ModulePrefix|] == ModulePrefix
    ensures IsStem(modname[|ModulePrefix|..], BaseName(filename))
    ensures (exists j :: 0 < j < |filename| && filename[j] == '/') ==> '/' !in modname[|ModulePrefix|..]
  {
    modname := filename;
    var i := PyStr.RFind(modname, '/');
    if i > 0 {
      modname := modname[i + 1..];
    }
    ghost var base := modname;
    i := PyStr.Find(modname, '.');
    if i > 0 {
      modname := modname[..i];
    }
    assert IsStem(modname, base);
    modname := ModulePrefix + modname;
  }

  // ---------------------------------------------------------------------------
  // file_import: the search path

  /** `list.remove(x)`: the list without the first occurrence of `x`. */
  function RemoveFirst(s: seq<string>, x: string): (r: seq<string>)
    ensures x !in s ==> r == s
    ensures x in s ==> |r| == |s| - 1
  {
    if s == [] then []
    else if s[0] == x then s[1..]
    else [s[0]] + RemoveFirst(s[1..], x)
  }

  /** Removal cuts out exactly the first occurrence; the rest keeps its order. */
  lemma {:induction false} RemoveFirstAt(s: seq<string>, x: string, i: nat)
    requires i < |s| && s[i] == x && x !in s[..i]
    ensures RemoveFirst(s, x) == s[..i] + s[i + 1..]
  {
    if i > 0 {
      assert s[1..][..i - 1] == s[1..i];
      assert s[0] in s[..i];
      RemoveFirstAt(s[1..], x, i - 1);
      assert s[..i] + s[i + 1..] == [s[0]] + (s[1..i] + s[i + 1..]);
    }
  }

  /** `sys.path`: the module search path. */
  class SearchPath {
    var entries: seq<string>

    constructor (entries: seq<string>)
      ensures this.entries == entries
    {
      this.entries := entries;
    }

    /** `sys.path.insert(0, p)`. */
    method InsertFront(p: string)
      modifies this
      ensures entries == [p] + old(entries)
    {
      entries := [p] + entries;
    }

    /** `sys.path.remove(p)`; `ok` is false where Python raises ValueError. */
    method Remove(p: string) returns (ok: bool)
      modifies this
      ensures ok <==> p in old(entries)
      ensures entries == RemoveFirst(old(entries), p)
    {
      var i := 0;
      while i < |entries|
        invariant i <= |entries|
        invariant p !in entries[..i]
      {
        if entries[i] == p {
          RemoveFirstAt(entries, p, i);
          entries := entries[..i] + entries[i + 1..];
          return true;
        }
        assert entries[..i + 1] == entries[..i] + [entries[i]];
        i := i + 1;
      }
      assert entries[..i] == entries;
      ok := false;
    }
  }

  /** `file_import(filename)`: `dir` is the resolved directory of the file and
      `loads` whether loading the module succeeds. On success the search path
      is as before; when loading raises, the pushed directory stays in front. */
  method FileImport(filename: string, dir: string, sysPath: SearchPath, loads: bool)
    returns (modname: string, loaded: bool)
    modifies sysPath
    ensures |modname| >= |ModulePrefix| && modname[..|ModulePrefix|] == ModulePrefix
    ensures IsStem(modname[|ModulePrefix|..], BaseName(filename))
    ensures loaded == loads
    ensures sysPath.entries == if loads then old(sysPath.entries) else [dir] + old(sysPath.entries)
  {
    modname := ModuleName(filename);
    sysPath.InsertFront(dir);
    if !loads {
      return modname, false;
    }
    var _ := sysPath.Remove(dir);
    loaded := true;
  }

  // ---------------------------------------------------------------------------
  // init_logger

  const DEBUG: int := 10
  const INFO: int := 20
  const WARNING: int := 30

  /** The level `init_logger` passes to `logging.basicConfig`, from the counts
      of `-q` and `-v` flags. */
  function LogLevel(quiet: nat, verbose: nat): (level: int)
    ensures level == WARNING <==> quiet == verbose
    ensures level < WARNING <==> verbose > quiet
    ensures (level - WARNING) % 10 == 0
    ensures quiet == 0 && verbose == 1 ==> level == INFO
    ensures quiet == 0 && verbose == 2 ==> level == DEBUG
  {
    WARNING + quiet * 10 - verbose * 10
  }

  /** Each `-v` lowers the level by exactly 10, each `-q` raises it by 10. */
  lemma LogLevelSteps(quiet: nat, verbose: nat)
    ensures LogLevel(quiet, verbose + 1) == LogLevel(quiet, verbose) - 10
    ensures LogLevel(quiet + 1, verbose) == LogLevel(quiet, verbose) + 10
  {
  }
}
