# Storage engine and cluster membership, modelled in Dafny

This project models the two components of the distributed key-value node that
carry its logic:

- **The storage engine** (`internal/storage/storage.go`). One embedded byte-keyed
  store holds both primary records and secondary-index entries. An index entry
  is stored under the key `_idx:<indexName>:<indexValue>:<primaryKey>` with an
  empty value. `Set`, `SetWithIndex` and `Delete` each run one update
  transaction. `Get` reads one key. `GetByIndex` seeks to the prefix
  `_idx:<indexName>:<indexValue>:` and walks forward in key order while keys
  carry that prefix.
- **The cluster manager** (`internal/cluster/cluster.go`). A `Manager` keeps a
  node list and a consistent-hash ring of node IDs. `AddNode` appends to both.
  `RemoveNode` splices out the first node with the ID and removes the ID from
  the ring. `GetNode` asks the ring for an ID and searches the list for it.

Files:

- `wrappers.dfy`: `Option` and `Result`, standing for Go's nil and `(value, err)`.
- `byte_order.dfy` (module `ByteOrder`): bytes, `bytes.HasPrefix`, the store's
  lexicographic key order, and the iterator's positioning step.
- `storage.dfy` (modules `Storage`, `StorageClients`): the key encoding, the
  store as a class over a `map<Bytes, Bytes>`, and client methods that show
  what callers can rely on.
- `cluster.dfy` (modules `Cluster`, `ClusterClients`): nodes, the ring as its
  set of hosts, the `Manager` class, and client methods.

How the foreign libraries are modelled:

- The embedded store is a map from keys to values. Each update transaction
  writes to a local copy of the map. The copy replaces the map only when every
  write in the transaction succeeded, so either every write lands or none does.
- The store's own key check is modelled: it refuses an empty key, so `Set`,
  `SetWithIndex`, `Get` and `Delete` return `EmptyKey` for `[]`.
- `Get` on an absent key returns the store's own not-found error (`KeyNotFound`).
  The package's `ErrKeyNotFound` (internal/storage/storage.go:25) is never
  returned by any operation, so the model has no separate constructor for it.
- The iterator's `Seek` and `Next` are `ByteOrder.LeastBeyond`: the least stored
  key at or after a bound, or strictly after it.
- The hash ring is its set of host IDs. `Add` is idempotent and `Remove` drops
  the ID. `Get` returns `NoHosts` when the set is empty. Otherwise it returns
  `pick(hosts, key)`. `pick` is a fixed function held by the manager. It is
  assumed (`PicksMember`) to return one of the hosts. It stands for the ring's
  hashing, which is not part of this model.
- Go strings (index names, node IDs) are byte sequences in the storage model
  and Dafny `string`s in the cluster model.

Behaviour of the code worth knowing:

- `AddNode` appends a duplicate ID instead of refusing it.
- `GetNode` on an empty ring returns the ring's `NoHosts` error, not a separate
  empty-cluster error.
- `GetNode` returns no node and no error when no listed node carries the chosen
  ID.
- `Get` reports the store's not-found error, not the package's `ErrKeyNotFound`.
- The ':' delimiter is not escaped. The lemmas show both sides. With colon-free
  values, under one shared name (whatever it holds) or two colon-free names,
  scans are exact (`PrefixIsPrecise`, `IndexWriteIsolated`).
  With a ':' inside a value, entries leak into another value's scan
  (`ValueColonCollides`, `ScanLeaksAcrossColon`).
- `GetByIndex` can never reach its extraction-error branch
  (internal/storage/storage.go:103-105), because every scanned key carries the
  prefix. The model proves this: the result is always `Ok`.

## Model

| member | source | states |
|---|---|---|
| `ByteOrder.LeastBeyond` | internal/storage/storage.go:97 | The iterator's `Seek`/`Next`: returns the least key at, or strictly after, the bound. Returns None exactly when no key lies beyond the bound. |
| `ByteOrder.PrefixRangeContiguous` | internal/storage/storage.go:97 | Keys that share a prefix form one contiguous run in key order. So stopping at the first key without the prefix (`ValidForPrefix`) misses none of them. |
| `ByteOrder.PrefixSortsFirst` | internal/storage/storage.go:97 | A prefix sorts at or before every key that carries it. So `Seek(prefix)` starts at or before the first matching key. |
| `ByteOrder.LessUnderPrefix` | internal/storage/storage.go:97-106 | A common prefix does not change how two keys compare. So scanned index keys come out in the order of their primary-key bytes. |
| `ByteOrder.AscendingUnique` | internal/storage/storage.go:89-114 | Two strictly ascending key lists that hold the same keys are equal. So a scan result is determined by the set of keys it lists. |
| `Storage.MakeIndexPrefix` | internal/storage/storage.go:142-150 | The scan prefix is `_idx:` ++ name ++ ':' ++ value ++ ':'. Its length is 7 plus the lengths of name and value, it begins with the `_idx:` namespace tag, and it ends in the delimiter. |
| `Storage.MakeIndexKey` | internal/storage/storage.go:129-139 | The index key is the scan prefix followed by the primary key. It lies in the `_idx:` namespace, and its length is the prefix length plus the primary key's length. |
| `Storage.ExtractPrimaryKey` | internal/storage/storage.go:152-159 | Succeeds exactly when the key starts with the expected prefix, and re-encoding the result gives back the input key. Otherwise it fails with `PrefixMismatch`. |
| `Storage.ExtractAfterMake` | internal/storage/storage.go:129-159 | Round trip: extracting from an encoded index key returns its primary key. |
| `Storage.FieldBoundary` | internal/storage/storage.go:142-149 | If one delimited field is a prefix of another and neither field holds ':', the two fields are equal. |
| `Storage.PrefixIsPrecise` | internal/storage/storage.go:141-149 | Take two different (name, value) pairs whose values hold no ':', for example values "a" and "ab", under one name of any bytes ("user:email" included) or under two colon-free names. The scan prefix of one matches no index key of the other, because of the trailing ':'. |
| `Storage.IndexKeysDisjoint` | internal/storage/storage.go:129-150 | Different (name, value) pairs with colon-free values, and a shared or colon-free name, never produce the same index key, whatever the primary keys. |
| `Storage.ValueColonCollides` | internal/storage/storage.go:129-159 | Defect: the entry for value `v:w` is byte-identical to the entry for value `v` with primary key `w:pk`. The prefix of `v` matches it, and extraction yields `w:pk`. |
| `Storage.NameColonCollides` | internal/storage/storage.go:129-139 | Defect: the pairs (`n:m`, `v`) and (`n`, `m`) give the same index key when the primary key absorbs the rest. |
| `Storage.BadgerStorage.constructor` | internal/storage/storage.go:32-40 | A freshly opened store is empty. |
| `Storage.BadgerStorage.Set` | internal/storage/storage.go:42-49 | An empty key is refused and nothing changes. Any other key is mapped to the value, and no other key changes. |
| `Storage.BadgerStorage.SetWithIndex` | internal/storage/storage.go:51-69 | An empty key is refused and neither write is committed. Otherwise exactly two keys change: `key ↦ value` and `MakeIndexKey(name, value, key) ↦ []`. The index key never equals the primary key. |
| `Storage.BadgerStorage.Get` | internal/storage/storage.go:71-86 | Succeeds exactly when the key is non-empty and stored, and then returns the stored value. Otherwise it fails with `EmptyKey` for `[]` and with the store's `KeyNotFound` for any other key. |
| `Storage.BadgerStorage.GetByIndex` | internal/storage/storage.go:88-114 | Always succeeds. The extraction error is unreachable. The result is strictly ascending, so sorted and free of duplicates. It holds exactly the primary keys `pk` for which `MakeIndexKey(name, value, pk)` is stored, and is empty when none are. |
| `Storage.ScanAdvances` | internal/storage/storage.go:97-107 | One `Next()` keeps the scan's invariants. Every matching key before the new position is listed, the listed keys sort before it, and fewer keys remain ahead. |
| `Storage.BadgerStorage.Delete` | internal/storage/storage.go:116-122 | An empty key is refused. Otherwise exactly that key is removed, and index entries that name it are left in place. |
| `StorageClients.SetThenGet` | internal/storage/storage.go:42-86 | After `Set(k, v)` with a non-empty key, `Get(k)` returns exactly `v`. |
| `StorageClients.SetWithIndexThenRead` | internal/storage/storage.go:51-114 | After `SetWithIndex(k, v, n, iv)` with a non-empty key, `Get(k)` returns `v` and `GetByIndex(n, iv)` contains `k`. |
| `StorageClients.DeleteLeavesDanglingIndex` | internal/storage/storage.go:116-122 | After deleting an indexed key, `Get` reports `KeyNotFound`, while `GetByIndex` still lists the key. |
| `StorageClients.IndexWriteIsolated` | internal/storage/storage.go:141-150 | Take pairs with colon-free values (shared or colon-free names) and a primary key outside the `_idx:` namespace. An indexed write under one pair leaves the scan of every other pair unchanged. |
| `StorageClients.ScanLeaksAcrossColon` | internal/storage/storage.go:141-159 | Defect: write an entry under value `v:w` into an empty store. The scan for `v` then returns exactly `[w:pk]`. |
| `StorageClients.NamespaceCollision` | internal/storage/storage.go:11-14 | A primary key chosen inside the `_idx:` namespace is listed by index scans as if it were an index entry. |
| `StorageClients.DanglingIndexScenario` | internal/storage/storage.go:51-122 | Index "u1" under ("name", "alice"), then delete it. The scan returns ["u1"] before the delete, `Get` then reports `KeyNotFound`, and the scan still returns ["u1"]. |
| `StorageClients.DelimiterPrecisionScenario` | internal/storage/storage.go:141-150 | A key indexed under ("color", "ab") is not listed by the scan for ("color", "a"). That scan returns []. |
| `StorageClients.OnlyIndexed` | internal/storage/storage.go:88-114 | When a store holds exactly one index entry, for `pk`, and no other key in the namespace, the scan result is exactly `[pk]`. |
| `Cluster.RingGet` | internal/cluster/cluster.go:65-68 | The ring lookup fails exactly when the ring has no hosts. Otherwise it returns one of its hosts. |
| `Cluster.FirstIndexOf` | internal/cluster/cluster.go:53-57 | The position of the first node that carries the ID, with no earlier node carrying it. Returns the list length when no node carries it. |
| `Cluster.FindFirst` | internal/cluster/cluster.go:69-74 | Finds a node exactly when the ID is listed. The node found is the one at `FirstIndexOf`, the first listed node carrying the ID. |
| `Cluster.RemoveFirst` | internal/cluster/cluster.go:53-58 | The list is one shorter exactly when the ID is listed, and is unchanged when it is not. |
| `Cluster.AppendIds` | internal/cluster/cluster.go:45-47 | Appending adds the node's ID to the list's IDs. The list's IDs stay unique exactly when the new ID is fresh. |
| `Cluster.RemoveFirstIds` | internal/cluster/cluster.go:52-59 | Removing the first node with an ID removes the ID from the list's IDs exactly when no second node carries it. Unique IDs stay unique. |
| `Cluster.Manager.constructor` | internal/cluster/cluster.go:27-37 | Keeps the given list unchanged. The ring holds exactly the IDs of its nodes. |
| `Cluster.Manager.Nodes` | internal/cluster/cluster.go:39-42 | Returns the current list with no error and changes nothing. |
| `Cluster.Manager.AddNode` | internal/cluster/cluster.go:44-49 | Always succeeds. The new list is the old list plus the node, and the node's ID joins the ring. A duplicate ID is kept. "Ring = listed IDs" is preserved. The IDs stay unique exactly when the new ID is fresh. |
| `Cluster.Manager.RemoveNode` | internal/cluster/cluster.go:51-61 | Always succeeds. Only the first node with the ID is removed, and the rest keep their order. The list is unchanged when no node matches. The ID always leaves the ring. From a synced state, the result is synced exactly when the ID was not repeated. |
| `Cluster.Manager.GetNode` | internal/cluster/cluster.go:63-75 | Changes nothing. A failed ring lookup gives no node and the ring's error, `NoHosts` on an empty ring. Otherwise it returns the first listed node with the chosen ID, or no node and no error. When the ring equals the listed IDs and is non-empty, it always returns a node. |
| `ClusterClients.EmptyClusterFails` | internal/cluster/cluster.go:64-68 | A manager built with no nodes answers every lookup with no node and `NoHosts`. |
| `ClusterClients.RepeatedLookupAgrees` | internal/cluster/cluster.go:64-75 | Two lookups of the same key without a membership change in between return the same node. |
| `ClusterClients.DuplicateIdDesync` | internal/cluster/cluster.go:45-61 | Add a second node with a listed ID, then remove that ID. One copy stays listed while the ring is empty, and lookups then return no node with `NoHosts`. |

## Left out

- Opening the store at a path and `Close` (internal/storage/storage.go:32-40, 124-127) are file-system I/O. The constructor models only a freshly opened empty store.
- The store's transactions, concurrency, durability and I/O failures are not modelled. Each update is an atomic map change, and the only store refusal modelled is the empty key. Key and value size limits and the store's reserved internal key prefix are left out.
- GetByIndex: the source returns sub-slices of the iterator's keys (internal/storage/storage.go:99, 158) without copying them, after the iterator and the read transaction have closed. The store may reuse those buffers. The model returns the primary keys as immutable values, so it does not capture this sharing.
- Error message text (`fmt.Errorf`) is not modelled: errors are tagged constructors.
- `Get` copies the value (internal/storage/storage.go:80). Dafny sequences are immutable values, so the copy has no observable counterpart.
- Node pointers are not modelled: nodes are values. `Nodes()` returns the live slice, and `RemoveNode` splices the same backing array in place, so an earlier snapshot can see shifted entries. The model does not model this aliasing: nodes and the list are values.
- The ring's hashing (hash function, virtual-node replicas, load tracking) is not part of this model, so the bounded remapping on membership change is not stated. Lookup determinism is stated only for a fixed ring state, through the fixed `pick` function.
- Concurrent access to the store and the manager is not modelled. The source has no locking.
- The `Storage` and `Cluster` interface declarations (internal/storage/storage.go:16-23, internal/cluster/cluster.go:13-19) only list the method signatures modelled above.
- internal/routing/routing.go is not part of this model. Its `Route` only delegates to `GetNode`.
- internal/server/grpc_server.go, internal/replication/replication.go and cmd/palantir/main.go are not part of this model. They are a transport adapter, a stub and process bootstrap.
