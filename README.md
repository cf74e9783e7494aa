# ARTIQ interactive-args bookkeeping and tool helpers, in Dafny

This project models two small pieces of ARTIQ's dashboard and command-line tools
and proves what they promise.

1. **The interactive-arguments dock** (`artiq/dashboard/interactive_args.py`).
   - `_LRUDict` is the bounded recency cache. It is an insertion-ordered dictionary,
     oldest entry first, capped at `size_limit` entries (100 by default).
     - `d[k] = v` drops any old entry for `k` and appends `(k, v)` at the end.
       If the cap is then exceeded, it evicts the oldest entry.
     - `d[k]` returns the value and moves `k` to the end.
   - The dock keeps per-request widget state in this cache. The key is
     `(filename, pipeline)`, so the run id is ignored. The dock also saves and
     restores the whole cache.
   - `Model.convert` maps a request to its three display columns, including the
     `"rid: title"` text.
   - A pending request builds its argument table from `arglist_desc`.
     `supply` turns that table into a map of values.
2. **Helpers of `artiq/tools.py`.**
   - `format_arguments` renders an argument map.
   - `file_import` derives a module name and pushes a directory onto, then
     removes it from, the module search path `sys.path`.
   - `init_logger` sets a log level.

Files and modules:

- `wrappers.dfy` (`Wrappers`): `Option` and `Result`. They stand in for Python's
  `None` and for the `KeyError`/`ValueError` the source raises.
- `lru_cache.dfy` (`LruCache`): the ordered dictionary is a `seq<(K, V)>`.
  - Functions (`Put`, `Touch`, `Without`, `PutAll`, `Lookup`, `AsMap`) say what
    each operation makes of the dictionary.
  - Lemmas prove the cache's properties.
  - The class `LruDict` performs the same updates in place. Each method's
    `ensures` ties the new `entries` to those functions.
- `interactive_args.dfy` (`InteractiveArgs`): `Model.convert`, the request's
  argument table (class `ArgsRequest`), and the dock (class
  `InteractiveArgsDock`, which owns an `LruDict`).
- `decimal.dfy` (`Decimal`): Python's `str` of an int, and a parser that reads it back.
- `pystr.dfy` (`PyStr`): `str.find`, `str.rfind` and `str.join`.
- `string_order.dfy` (`StringOrder`): Python's order on `str` (by code point; a
  proper prefix comes first), and `sorted` of a set of distinct keys.
- `tools.dfy` (`Tools`): `format_arguments`, the module name and search-path
  handling of `file_import`, and `init_logger`'s level.

Notes on how the source behaves:

- `save_state` builds `dict(self.widget_states)`. CPython builds a dict from an
  `OrderedDict` subclass through the generic mapping path: it takes the key list
  first, then reads each key with the overridden `__getitem__`. Each read moves
  its key to the end. `InteractiveArgsDock.SaveState` models that pass. Its loop
  invariant shows that after the full pass the cache is back in its original
  order. The saved entries are in that same order.
- `restore_state` calls `update`, which goes through the overridden `__setitem__`
  once per saved item. `get_stored_state` calls `get`, which does not go through
  `__getitem__`. So a lookup does not reorder the cache.
- The module name keeps a leading `/`: `"/x.py"` gives `"file_import_/x"`. The
  rfind test is `i > 0`, so a slash at index 0 is not stripped. It also keeps a
  leading dot: `"d/.x"` gives `"file_import_.x"`. The model follows the code in
  both cases.

## Model

| member | source | states |
|---|---|---|
| `LruCache.LruDict.constructor` | artiq/dashboard/interactive_args.py:135-137 | a new cache is empty and has the given size limit |
| `LruCache.LruDict.Set` | artiq/dashboard/interactive_args.py:139-144 | `d[k] = v` keeps keys distinct and the size within the limit; the new entries are `Put` of the old ones |
| `LruCache.LruDict.Get` | artiq/dashboard/interactive_args.py:146-149 | `d[k]` returns the stored value (None for KeyError); the new entries are `Touch` of the old ones; keys stay distinct and within the limit |
| `LruCache.LruDict.Peek` | artiq/dashboard/interactive_args.py:178 | `get` returns the stored value, or None exactly when the key is absent; it changes nothing |
| `LruCache.LruDict.Pop` | artiq/dashboard/interactive_args.py:140-141 | `pop(k)` returns k's value (None when absent) and removes only k's entry; keys stay distinct |
| `LruCache.LruDict.PopOldest` | artiq/dashboard/interactive_args.py:143-144 | `popitem(last=False)` removes and returns the first (oldest) entry; on an empty dict it returns None and changes nothing |
| `LruCache.LruDict.IndexOf` | artiq/dashboard/interactive_args.py:140 | `key in self`: found exactly when the key is present, and at the returned position |
| `LruCache.Lookup` | artiq/dashboard/interactive_args.py:146-147 | a value found for k is stored in the dictionary under k; None stands for the KeyError of a missing key |
| `LruCache.AsMap` | artiq/dashboard/interactive_args.py:171 | the plain `dict` view has exactly the keys of the ordered dictionary |
| `LruCache.Without` | artiq/dashboard/interactive_args.py:140-141 | `pop(k)` never grows the dictionary, and leaves it unchanged exactly when nothing was removed |
| `LruCache.Put` | artiq/dashboard/interactive_args.py:139-144 | `d[k] = v` keeps a dictionary within the limit, and with a positive limit the new pair `(k, v)` is the last entry |
| `LruCache.Touch` | artiq/dashboard/interactive_args.py:146-149 | after `d[k]` the key read is the last entry, with its value; a missing key leaves the dictionary as it was |
| `LruCache.PutAll` | artiq/dashboard/interactive_args.py:173-174 | `update` through `__setitem__` keeps a dictionary within the limit, whatever the items |
| `LruCache.PutStoresLast` | artiq/dashboard/interactive_args.py:139-142 | after `d[k] = v` with a positive limit, k maps to v, is the last (most recent) entry, and keys are distinct |
| `LruCache.PutExistingNoGrowth` | artiq/dashboard/interactive_args.py:140-142 | assigning to a key already present never increases the size |
| `LruCache.PutEviction` | artiq/dashboard/interactive_args.py:142-144 | size at most the limit stays at most the limit; with room, or for a present key, nothing is evicted (old entry removed, pair appended); a new key at a full cache evicts exactly the first entry, and the rest keep their order |
| `LruCache.PutOthers` | artiq/dashboard/interactive_args.py:139-144 | every other key still present keeps its value |
| `LruCache.PutPreservesDistinct` | artiq/dashboard/interactive_args.py:139-144 | a set never creates a duplicate key, at any size |
| `LruCache.WithoutAt` | artiq/dashboard/interactive_args.py:140-141 | popping a key cuts out exactly its one entry; the entries before and after it keep their order |
| `LruCache.WithoutKeys` | artiq/dashboard/interactive_args.py:140-141 | popping removes exactly that key from the key set, keeps keys distinct, and shrinks the size by one when the key was present |
| `LruCache.LookupPresent` | artiq/dashboard/interactive_args.py:146-147 | a lookup succeeds exactly for present keys and agrees with the plain `dict` view |
| `LruCache.TouchKeepsPairs` | artiq/dashboard/interactive_args.py:146-149 | `d[k]` keeps the same key/value pairs and size; a present k becomes the last entry with its value |
| `LruCache.TouchFirst` | artiq/dashboard/interactive_args.py:148 | moving the oldest key to the end rotates the dictionary by one |
| `LruCache.PutAllValid` | artiq/dashboard/interactive_args.py:173-174 | replaying any items via `update` keeps keys distinct and the size within the limit |
| `LruCache.RestoreRebuilds` | artiq/dashboard/interactive_args.py:170-174 | restoring saved entries (distinct, within the limit) into an empty cache rebuilds them exactly, in order |
| `InteractiveArgs.Convert` | artiq/dashboard/interactive_args.py:19-29 | columns 0 to 2 succeed and any other column is a ValueError; column 0 is the key; column 2 is `arglist_desc`; column 1 is `str(rid)` alone exactly when the title is empty, and otherwise `str(rid)`, then ": ", then the title |
| `InteractiveArgs.ConvertTitleReadBack` | artiq/dashboard/interactive_args.py:22-25 | the `"rid: title"` text splits back into `str(rid)` and the title, and the run id parses back, for empty and non-empty titles |
| `InteractiveArgs.RunIdHasNoColon` | artiq/dashboard/interactive_args.py:25 | `str(rid)` never contains ':', so the first ':' of the title cell is the separator |
| `InteractiveArgs.ArgumentsOf` | artiq/dashboard/interactive_args.py:42-44 | the `arguments` table built from a list of descriptions has at most one entry per description |
| `InteractiveArgs.ArgumentsOfKeys` | artiq/dashboard/interactive_args.py:42-45 | the `arguments` table has exactly the keys of `arglist_desc` |
| `InteractiveArgs.ArgumentsOfLastWins` | artiq/dashboard/interactive_args.py:43-44 | each key holds the desc/group/tooltip of its last description in the list |
| `InteractiveArgs.ArgsRequest.constructor` | artiq/dashboard/interactive_args.py:39-45 | the loop leaves `arguments` equal to `ArgumentsOf(arglist_desc)`, whose keys are those of `arglist_desc` |
| `InteractiveArgs.ArgsRequest.Supply` | artiq/dashboard/interactive_args.py:64-69 | the emitted values map has exactly the argument keys, each with its entry's value, and is tagged with the request |
| `InteractiveArgs.StorageKeyOf` | artiq/dashboard/interactive_args.py:166-168 | the storage key is the request's file name and pipeline name; the run id is not part of it |
| `InteractiveArgs.SharedSlot` | artiq/dashboard/interactive_args.py:166-168 | two requests share a storage key exactly when file and pipeline agree, so the run id is ignored |
| `InteractiveArgs.SuppliedStateIsFound` | artiq/dashboard/interactive_args.py:176-184 | state stored on supply for one request is found for any request with the same file and pipeline |
| `InteractiveArgs.InteractiveArgsDock.constructor` | artiq/dashboard/interactive_args.py:155 | the dock starts with an empty cache of limit 100 |
| `InteractiveArgs.InteractiveArgsDock.GetStoredState` | artiq/dashboard/interactive_args.py:176-178 | returns the state stored under the request's storage key, or None when absent, and does not modify the cache |
| `InteractiveArgs.InteractiveArgsDock.SaveState` | artiq/dashboard/interactive_args.py:170-171 | the saved state holds every entry in cache order, and the cache is unchanged afterwards, although each entry was read through `__getitem__` |
| `InteractiveArgs.InteractiveArgsDock.RestoreState` | artiq/dashboard/interactive_args.py:173-174 | the cache becomes the old cache with each saved item set in turn, or stays as it was when no `widget_states` is saved; it stays valid |
| `InteractiveArgs.InteractiveArgsDock.Supply` | artiq/dashboard/interactive_args.py:180-184 | with a current tab, its saved state is set under the request's storage key; with none, the cache is unchanged |
| `Decimal.IntToString` | artiq/dashboard/interactive_args.py:25 | `str(rid)`: non-empty decimal digits with no leading zero, and a leading '-' exactly for negative ids |
| `Decimal.IntToStringRoundTrip` | artiq/dashboard/interactive_args.py:25 | parsing `str(rid)` gives back `rid` |
| `Decimal.NatToStringRoundTrip` | artiq/dashboard/interactive_args.py:25 | parsing the digits of a non-negative int gives it back |
| `PyStr.Find` | artiq/tools.py:28 | `find` returns the first index of the character, or -1 exactly when it is absent |
| `PyStr.RFind` | artiq/tools.py:25 | `rfind` returns the last index of the character, or -1 exactly when it is absent |
| `PyStr.Join` | artiq/tools.py:16 | joining no items gives ""; one item gives the item itself; otherwise the result starts with the first item |
| `PyStr.JoinSnoc` | artiq/tools.py:16 | each further item is appended after one separator: joining `items + [x]` gives the join of `items`, then `sep`, then `x` |
| `StringOrder.Less` | artiq/tools.py:13 | Python's `<` on str: a proper prefix sorts before the longer string |
| `StringOrder.LessIrreflexive` | artiq/tools.py:13 | no key sorts before itself |
| `StringOrder.LessTransitive` | artiq/tools.py:13 | the str order used by `sorted` is transitive |
| `StringOrder.LessTotal` | artiq/tools.py:13 | any two distinct keys are ordered one way or the other |
| `StringOrder.LessAsymmetric` | artiq/tools.py:13 | never both a < b and b < a |
| `StringOrder.LeastExists` | artiq/tools.py:13 | every non-empty key set has a least key |
| `StringOrder.SortedKeys` | artiq/tools.py:13 | the sorted list of a key set has one element per key, and a non-empty set's list starts with its least key |
| `StringOrder.SortedKeysSpec` | artiq/tools.py:13 | the sorted key list is strictly ascending and holds each key exactly once |
| `StringOrder.SortedUnique` | artiq/tools.py:13 | a strictly ascending list is determined by its elements |
| `StringOrder.TailElems` | artiq/tools.py:13 | the tail of a strictly ascending list holds every element but the first |
| `StringOrder.Least` | artiq/tools.py:13 | returns the least key of a non-empty set |
| `StringOrder.Sort` | artiq/tools.py:13 | `sorted` of the keys: strictly ascending, exactly the keys, equal to `SortedKeys` |
| `Tools.Items` | artiq/tools.py:13-14 | one `k=repr(v)` item per key, in the keys' order |
| `Tools.Formatted` | artiq/tools.py:11-18 | the text `format_arguments` returns is "" exactly when there are no arguments |
| `Tools.FormatItems` | artiq/tools.py:12-14 | the loop builds one `k=repr(v)` item per key, in the order of the sorted keys |
| `Tools.FormatArguments` | artiq/tools.py:11-18 | the result is `Formatted`: items in ascending key order joined by ", "; it is "" exactly for an empty map |
| `Tools.FormattedBySortedList` | artiq/tools.py:13-16 | any ascending listing of the keys, joined by ", ", gives the same text, so the result depends only on the map |
| `Tools.FormattedStartsWithLeastKey` | artiq/tools.py:13-16 | the text opens with the least key followed by '=' |
| `Tools.FormattedSingle` | artiq/tools.py:14-16 | one argument renders as `k=repr(v)` with no separator |
| `Tools.FormattedTwo` | artiq/tools.py:13-16 | two arguments appear in ascending key order, separated by ", ", whatever the map's insertion order |
| `Tools.BaseName` | artiq/tools.py:24-27 | when some '/' sits at an index > 0, the base name is exactly the text after the last '/', with no '/' in it; otherwise (no '/', or a lone '/' at index 0) it is the whole file name |
| `Tools.StemIsUnique` | artiq/tools.py:28-30 | a base name has exactly one stem, so the stem condition fixes the module name |
| `Tools.ModuleName` | artiq/tools.py:24-31 | the name starts with `file_import_`; the rest is the base name cut before its first '.' unless that '.' is at index 0, so a '.' survives only behind a leading '.'; if any '/' is at an index > 0 the rest has no '/' |
| `Tools.RemoveFirst` | artiq/tools.py:39 | `list.remove` of an absent value changes nothing; of a present value it removes exactly one element |
| `Tools.RemoveFirstAt` | artiq/tools.py:39 | `list.remove` cuts out exactly the first occurrence; the rest keeps its order |
| `Tools.SearchPath.InsertFront` | artiq/tools.py:34 | `sys.path.insert(0, p)` puts p in front |
| `Tools.SearchPath.Remove` | artiq/tools.py:39 | `sys.path.remove(p)` removes the first occurrence, and reports the ValueError case when p is absent |
| `Tools.FileImport` | artiq/tools.py:21-41 | the module name is `file_import_` plus the stem of the base name, as for `ModuleName` (cut at the first '.' unless it is at index 0); after a successful load the search path equals the one before; a failed load leaves the directory in front |
| `Tools.LogLevel` | artiq/tools.py:60-61 | the level is WARNING exactly when the -q and -v counts are equal, and below WARNING exactly when -v outnumbers -q; it stays on WARNING's multiple-of-10 grid; one -v gives INFO, two give DEBUG |
| `Tools.LogLevelSteps` | artiq/tools.py:61 | each -v lowers the level by exactly 10, and each -q raises it by 10 |

## Left out

- Qt. The model leaves out all widget, signal, tab and stack handling:
  `_InteractiveArgsView` (`setModel`, `_insert_widget`, `rowsInserted`,
  `rowsRemoved`), the button layout, `EntryTreeWidget.set_argument`, and
  `DictSyncModel`, including `Model.sort_key`. They are GUI toolkit behaviour,
  not logic of this code.
- `_supply_task`, `_cancel_task`, `cancel` and the `asyncio.ensure_future` calls.
  These are asynchronous RPC calls to a client this code does not define. The
  dock's `Supply` models only the cache update.
- `procdesc_to_entry` and `state_to_value` are foreign. `ArgsRequest.Supply`
  takes their combined effect, the entry's value for an argument, as the
  function parameter `valueOf`.
- `widget.save_state()` and `currentWidget()` are Qt calls. The dock's `Supply`
  takes the current tab's saved state as `current` (None when no tab is current).
- `LruCache.PutStoresLast`: requires a positive size limit. With `size_limit`
  0, setting a key evicts it at once; `Put` and `LruDict.Set` model that case.
- `LruDict` models `size_limit` as a natural number. Only the default of 100 is
  ever used. The other inherited `OrderedDict` methods are left out because the
  dock does not call them.
- The `arguments` table of `ArgsRequest` and the `values` it emits are Dafny
  maps. So the model does not record the insertion order of these Python dicts.
  Only their keys and values are modelled; nothing in this code reads their order.
- `repr` of an argument value is a parameter. Python's `repr` rules are not modelled.
- In `file_import`, the model leaves out these foreign steps:
  - `linecache.checkcache`;
  - `os.path.realpath`/`dirname` (the directory is the parameter `dir`);
  - `SourceFileLoader.load_module`: whether it succeeds is the parameter `loads`.
    The model returns the module name, not a module, and does not track changes
    the loaded module makes to `sys.path` itself.
- `verbosity_args` and `simple_network_args` are thin `argparse` calls.
  `logging.basicConfig` itself is not modelled; only the level it receives is.
- `asyncio_process_wait_timeout` depends on wall-clock time, coroutines and
  process I/O.
- `artiq/examples/no_hardware/repository/sample_applet.py` is not part of this
  model. It is a GUI applet.
- `artiq/test/lit/embedding/subkernel_no_arg.py` is not part of this model. It is
  a fixture for a compiler that is not shown.
- `soc/runtime/kloader.h` is not part of this model. It holds only constants and
  prototypes.
