/** The bookkeeping of the dashboard's interactive-arguments dock: the display
    mapping of the request model, the argument table of one pending request and
    the dock's recency cache of per-request widget state. Qt widgets, signals and
    the asynchronous supply/cancel calls are not modelled; where the dock asks a
    widget for something, the answer is a parameter. */
module InteractiveArgs {
  import opened Wrappers
  import opened LruCache
  import Decimal
  import PyStr

  /** A request as the experiment publishes it: (run id, file name, pipeline name). */
  type Request = (int, string, string)

  /** The cache key of a request: (file name, pipeline name). */
  type StorageKey = (string, string)

  /** One element of `arglist_desc`: (key, procdesc, group, tooltip). */
  datatype ArgDesc<D> = ArgDesc(key: string, procdesc: D, group: Option<string>, tooltip: Option<string>)

  /** The model's value for a request: its title and its argument descriptions. */
  datatype RequestInfo<D> = RequestInfo(title: string, arglistDesc: seq<ArgDesc<D>>)

  /** What `Model.convert` returns for the three columns. */
  datatype Cell<D> = RequestCell(request: Request) | TextCell(text: string) | ArgListCell(arglistDesc: seq<ArgDesc<D>>)

  datatype ConvertError = ValueError

  // ---------------------------------------------------------------------------
  // Model.convert

  /** Column 0 shows the request, column 1 "rid" or "rid: title", column 2 the
      argument descriptions; any other column is a ValueError. */
  function Convert<D>(k: Request, v: RequestInfo<D>, column: int): (r: Result<Cell<D>, ConvertError>)
    ensures r.Failure? <==> !(0 <= column <= 2)
    ensures column == 0 ==> r == Success(RequestCell(k))
    ensures column == 2 ==> r == Success(ArgListCell(v.arglistDesc))
    ensures column == 1 ==> r.Success? && r.value.TextCell?
    ensures column == 1 && v.title != "" ==> r.value.text == Decimal.IntToString(k.0) + ": " + v.title
    ensures column == 1 ==> var rid := Decimal.IntToString(k.0);
      && |r.value.text| >= |rid| && r.value.text[..|rid|] == rid
      && (v.title == "" <==> r.value.text == rid)
  {
    if column == 0 then Success(RequestCell(k))
    else if column == 1 then
      var txt := if v.title != "" then ": " + v.title else "";
      Success(TextCell(Decimal.IntToString(k.0) + txt))
    else if column == 2 then Success(ArgListCell(v.arglistDesc))
    else Failure(ValueError)
  }

  /** Reads a title cell back: the text before the first ':' and the text after ": ". */
  function SplitTitleCell(text: string): (string, string) {
    var i := PyStr.Find(text, ':');
    if i < 0 then (text, "")
    else (text[..i], text[if i + 2 <= |text| then i + 2 else |text|..])
  }

  lemma RunIdHasNoColon(rid: int)
    ensures ':' !in Decimal.IntToString(rid)
  {
    var d := Decimal.IntToString(rid);
    forall j | 0 <= j < |d| ensures d[j] != ':' {
      if rid < 0 && j > 0 {
        assert d[1..][j - 1] == d[j];
      }
    }
  }

  /** Splitting "rid: title" gives back the run id and the title, as long as
      the run id holds no ':'. */
  lemma SplitJoinedTitle(d: string, title: string)
    requires ':' !in d
    ensures SplitTitleCell(d + ": " + title) == (d, title)
  {
    var t := d + ": " + title;
    assert t[..|d|] == d && t[|d|] == ':';
    assert t[..|d| + 1] == d + [':'];
    assert t[|d| + 2..] == title;
  }

  /** The title column loses nothing: the run id and the title can both be
      read back from it, whether or not the title is empty. */
  lemma ConvertTitleReadBack<D>(k: Request, v: RequestInfo<D>)
    ensures Convert(k, v, 1).Success? && Convert(k, v, 1).value.TextCell?
    ensures var parts := SplitTitleCell(Convert(k, v, 1).value.text);
      && parts == (Decimal.IntToString(k.0), v.title)
      && Decimal.ParseInt(parts.0) == k.0
  {
    var d := Decimal.IntToString(k.0);
    RunIdHasNoColon(k.0);
    if v.title != "" {
      assert Convert(k, v, 1).value.text == d + ": " + v.title;
      SplitJoinedTitle(d, v.title);
    }
    Decimal.IntToStringRoundTrip(k.0);
  }

  // ---------------------------------------------------------------------------
  // _InteractiveArgsRequest

  /** The per-argument record `__init__` stores: {"desc", "group", "tooltip"}. */
  datatype Argument<D> = Argument(desc: D, group: Option<string>, tooltip: Option<string>)

  function ArgumentOf<D>(d: ArgDesc<D>): Argument<D> {
    Argument(d.procdesc, d.group, d.tooltip)
  }

  /** The keys named in an argument list. */
  function DescKeys<D>(arglist: seq<ArgDesc<D>>): set<string> {
    set i | 0 <= i < |arglist| :: arglist[i].key
  }

  /** The `arguments` table after the loop in `__init__` has run over a prefix
      of the list: a later description of the same key overwrites an earlier one. */
  function ArgumentsOf<D>(arglist: seq<ArgDesc<D>>): (args: map<string, Argument<D>>)
    ensures |args| <= |arglist|
  {
    if arglist == [] then map[]
    else
      var last := arglist[|arglist| - 1];
      ArgumentsOf(arglist[..|arglist| - 1])[last.key := ArgumentOf(last)]
  }

  /** The table has exactly the keys of the argument list. */
  lemma {:induction false} ArgumentsOfKeys<D>(arglist: seq<ArgDesc<D>>)
    ensures ArgumentsOf(arglist).Keys == DescKeys(arglist)
  {
    if arglist != [] {
      var n := |arglist|;
      var init := arglist[..n - 1];
      ArgumentsOfKeys(init);
      forall x | x in DescKeys(arglist) ensures x in DescKeys(init) + {arglist[n - 1].key} {
        var i :| 0 <= i < n && arglist[i].key == x;
        if i < n - 1 { assert init[i] == arglist[i]; }
      }
      forall x | x in DescKeys(init) ensures x in DescKeys(arglist) {
        var i :| 0 <= i < n - 1 && init[i].key == x;
        assert arglist[i] == init[i];
      }
    }
  }

  /** Each key holds the record built from its LAST description in the list. */
  lemma {:induction false} ArgumentsOfLastWins<D>(arglist: seq<ArgDesc<D>>, i: nat)
    requires i < |arglist|
    requires forall j :: i < j < |arglist| ==> arglist[j].key != arglist[i].key
    ensures arglist[i].key in ArgumentsOf(arglist)
    ensures ArgumentsOf(arglist)[arglist[i].key] == ArgumentOf(arglist[i])
  {
    var n := |arglist|;
    if i < n - 1 {
      var init := arglist[..n - 1];
      assert init[i] == arglist[i];
      forall j | i < j < |init| ensures init[j].key != init[i].key {
        assert init[j] == arglist[j];
      }
      ArgumentsOfLastWins(init, i);
    }
  }

  class ArgsRequest<D> {
    const request: Request
    /** key -> {"desc", "group", "tooltip"}; fixed once `__init__` has run. */
    const arguments: map<string, Argument<D>>

    constructor (request: Request, arglistDesc: seq<ArgDesc<D>>)
      ensures this.request == request
      ensures arguments == ArgumentsOf(arglistDesc)
      ensures arguments.Keys == DescKeys(arglistDesc)
    {
      var args: map<string, Argument<D>> := map[];
      for i := 0 to |arglistDesc|
        invariant args == ArgumentsOf(arglistDesc[..i])
      {
        var d := arglistDesc[i];
        assert arglistDesc[..i + 1][..i] == arglistDesc[..i];
        args := args[d.key := ArgumentOf(d)];
      }
      assert arglistDesc[..|arglistDesc|] == arglistDesc;
      ArgumentsOfKeys(arglistDesc);
      this.request := request;
      arguments := args;
    }

    /** `supply`: one value per argument, in a map with exactly the argument
        keys; the result is what the `supplied` signal carries. `valueOf` stands
        for the entry widget's `state_to_value` of the argument's current state. */
    method Supply<V>(valueOf: (string, Argument<D>) -> V) returns (req: Request, values: map<string, V>)
      ensures req == request
      ensures values.Keys == arguments.Keys
      ensures forall k :: k in values ==> values[k] == valueOf(k, arguments[k])
    {
      values := map[];
      var todo := arguments.Keys;
      while todo != {}
        invariant todo <= arguments.Keys
        invariant values.Keys == arguments.Keys - todo
        invariant forall k :: k in values ==> values[k] == valueOf(k, arguments[k])
        decreases todo
      {
        var k :| k in todo;
        values := values[k := valueOf(k, arguments[k])];
        todo := todo - {k};
      }
      req := request;
    }
  }

  // ---------------------------------------------------------------------------
  // InteractiveArgsDock

  /** `_get_storage_key`: elements 1 and 2 of the request; the run id is dropped. */
  function StorageKeyOf(request: Request): (key: StorageKey)
    ensures key.0 == request.1 && key.1 == request.2
  {
    (request.1, request.2)
  }

  /** Two requests share a cache slot exactly when file and pipeline agree. */
  lemma SharedSlot(a: Request, b: Request)
    ensures StorageKeyOf(a) == StorageKeyOf(b) <==> a.1 == b.1 && a.2 == b.2
  {
  }

  /** State saved by one request is what a later request of the same file and
      pipeline finds, whatever its run id. */
  lemma SuppliedStateIsFound<S>(s: seq<(StorageKey, S)>, a: Request, b: Request, st: S)
    requires DistinctKeys(s)
    requires a.1 == b.1 && a.2 == b.2
    ensures Lookup(Put(s, DefaultSizeLimit, StorageKeyOf(a), st), StorageKeyOf(b)) == Some(st)
  {
    PutStoresLast(s, DefaultSizeLimit, StorageKeyOf(a), st);
  }

  /** The dock's saved settings: {"widget_states": ...}; None when the key is absent. */
  datatype DockState<S> = DockState(widgetStates: Option<seq<(StorageKey, S)>>)

  class InteractiveArgsDock<S> {
    const widgetStates: LruDict<StorageKey, S>

    ghost predicate Valid()
      reads this, widgetStates
    {
      widgetStates.Valid() && widgetStates.sizeLimit == DefaultSizeLimit
    }

    constructor ()
      ensures Valid() && fresh(widgetStates) && widgetStates.entries == []
    {
      widgetStates := new LruDict(DefaultSizeLimit);
    }

    /** `get_stored_state`: a plain `get`, so the cache order is left alone. */
    method GetStoredState(request: Request) returns (r: Option<S>)
      requires Valid()
      ensures r == Lookup(widgetStates.entries, StorageKeyOf(request))
      ensures r.Some? <==> StorageKeyOf(request) in Keys(widgetStates.entries)
    {
      r := widgetStates.Peek(StorageKeyOf(request));
    }

    /** `save_state`. `dict(self.widget_states)` reads every entry through the
        overridden `__getitem__`, key by key in order, so each read moves its key
        to the end; after the full pass the cache is back in its original order. */
    method SaveState() returns (state: DockState<S>)
      requires Valid()
      modifies widgetStates
      ensures Valid()
      ensures widgetStates.entries == old(widgetStates.entries)
      ensures state == DockState(Some(old(widgetStates.entries)))
    {
      var s := widgetStates.entries;
      var keys := seq(|s|, i requires 0 <= i < |s| => s[i].0);
      var saved: seq<(StorageKey, S)> := [];
      var i := 0;
      while i < |keys|
        invariant 0 <= i <= |keys| == |s|
        invariant Valid()
        invariant widgetStates.entries == s[i..] + s[..i]
        invariant saved == s[..i]
      {
        ghost var cur := widgetStates.entries;
        assert cur[0] == s[i];
        LookupAt(cur, 0);
        TouchFirst(cur);
        var v := widgetStates.Get(keys[i]);
        saved := saved + [(keys[i], v.value)];
        assert s[i + 1..] + s[..i + 1] == cur[1..] + [cur[0]];
        i := i + 1;
      }
      assert s[|s|..] + s[..|s|] == s;
      state := DockState(Some(saved));
    }

    /** `restore_state`: `update` replays every saved entry through `d[k] = v`. */
    method RestoreState(state: DockState<S>)
      requires Valid()
      modifies widgetStates
      ensures Valid()
      ensures widgetStates.entries == PutAll(old(widgetStates.entries), DefaultSizeLimit, state.widgetStates.GetOr([]))
    {
      var items := state.widgetStates.GetOr([]);
      var i := 0;
      while i < |items|
        invariant 0 <= i <= |items|
        invariant Valid()
        invariant PutAll(widgetStates.entries, DefaultSizeLimit, items[i..])
               == PutAll(old(widgetStates.entries), DefaultSizeLimit, items)
      {
        assert items[i..][1..] == items[i + 1..];
        widgetStates.Set(items[i].0, items[i].1);
        i := i + 1;
      }
    }

    /** `supply`: when a tab is current, its saved widget state (`current`) is
        stored under the request's storage key; the RPC call is not modelled. */
    method Supply(request: Request, current: Option<S>)
      requires Valid()
      modifies widgetStates
      ensures Valid()
      ensures widgetStates.entries
           == if current.Some? then Put(old(widgetStates.entries), DefaultSizeLimit, StorageKeyOf(request), current.value)
              else old(widgetStates.entries)
    {
      if current.Some? {
        widgetStates.Set(StorageKeyOf(request), current.value);
      }
    }
  }
}
