# DOLFIN contact state and Tpetra vector bookkeeping, in Dafny

This project models two pieces of DOLFIN, a finite-element framework.

**The geometric contact engine's state** (`dolfin/geometry/GeometricContact.h`).
The class `Contact.GeometricContact` holds five maps:

- `masterToSlave` and `slaveToMaster`: master facet to the slave facets it collides with, and the reverse.
- `localCellToContactDofs` and `localCellToOffProcContactDofs`: local cell to the contact dofs owned on this process, and to those owned by another process.
- `masterFacetToContactedCells`: master facet to the `CellMetaData` records of the cells it contacts.

`CellMetaData` is an immutable record, so it is a datatype. The four map getters are read-only functions. `GetCellMetaData` is a method because `std::map::operator[]` inserts an empty entry for a key it has not seen. It is specified by the pure functions `Lookup` and `Touch`. The two size helpers of the swept prism are `CellsPerFacet` and `VerticesPerFacet`. They compute in 64-bit unsigned arithmetic, so `CellsPerFacet(0)` wraps around.

**The index and ownership bookkeeping of `TpetraVector`** (`dolfin/la/TpetraVector.cpp`).
Tpetra's maps are written out as plain index data. `Tpetra.TpetraVector` is a class with these fields:

- `initialized`: the initialise-once flag.
- `globalSize`: the global length.
- `lo` and `hi`: the owned global range `[lo, hi)`.
- `ghostMap`: the global index held by each local slot of the ghosted vector.
- `data`: an `array<real>` of the local entries. The owned view is its first `hi - lo` slots.

Rows are resolved to slots by global index (`GlobalSlot`, Tpetra's `getLocalElement` on the ghosted map) or by local slot (`LocalSlot`). The row operations `get`, `set` and `add`, and their `_local` variants, loop over the rows. They raise an error at the first row that is not in the map. Writes made before that row stay in place. The module `TpetraIndexing` states these loops as pure functions (`Assign`, `Accumulate`, `Gathered`) and proves what they do to each slot. The module `TpetraLayout` models the construction of the local-to-global array in `init(TensorLayout)`, both as written and corrected (see Findings).

Some things the source leaves to other code are parameters here:

- the MPI sum of local sizes in `_init`;
- the range `MPI::local_range` hands a process in `init(comm, N)`;
- the sizes read from a layout's index map.

A `dolfin_error` becomes an `Error` value, and the state is what it was when the error was raised. A `dolfin_assert` becomes a precondition.

## Model

| member | source | states |
|---|---|---|
| `Contact.CellsPerFacet` | dolfin/geometry/GeometricContact.h:168-169 | `4 * (tdim - 1)` whenever that fits in a word: 4 in 2D and 8 in 3D. For `tdim = 0` the unsigned subtraction wraps to `2^64 - 4`. |
| `Contact.VerticesPerFacet` | dolfin/geometry/GeometricContact.h:171-172 | `2 * tdim` below the word bound: 4 in 2D and 6 in 3D. |
| `Contact.PrismCounts` | dolfin/geometry/GeometricContact.h:168-172 | In 2D and 3D the helpers count the swept prism. There are two copies of each facet vertex. The cells are the boundary simplices `2 + tdim * (tdim - 1)`: 4 edges of a quadrilateral, or 8 triangles of a triangular prism. |
| `Contact.CellMetaDataKeepsInputs` | dolfin/geometry/GeometricContact.h:38-55 | A record built from `(sf, sfl, coords, dofs, coeffs)` has slave facet index `sf` and local index `sfl`. Its getters return exactly `coords`, `dofs` and `coeffs`. |
| `Contact.Touch` | dolfin/geometry/GeometricContact.h:118-121 | `operator[]`, whose returned value is `Lookup`, adds exactly the looked-up key to the map's keys. It keeps every existing entry, and the key's value is the stored list or the empty list. |
| `Contact.TouchIdempotent` | dolfin/geometry/GeometricContact.h:118-121 | A second lookup of the same key returns what the first returned and leaves the map as the first left it. |
| `Contact.GeometricContact.constructor` | dolfin/geometry/GeometricContact.h:63-66 | A new engine has all four facet/dof maps and the metadata map empty. |
| `Contact.GeometricContact.MasterToSlave` | dolfin/geometry/GeometricContact.h:94-97 | The const getter returns the stored master-to-slave map itself and reads nothing else. |
| `Contact.GeometricContact.SlaveToMaster` | dolfin/geometry/GeometricContact.h:100-103 | The const getter returns the stored slave-to-master map itself. |
| `Contact.GeometricContact.LocalCellsToContactDofs` | dolfin/geometry/GeometricContact.h:106-109 | The const getter returns the stored map of local cells to the contact dofs owned on this process. |
| `Contact.GeometricContact.LocalCellToOffProcContactDofs` | dolfin/geometry/GeometricContact.h:112-115 | The const getter returns the stored map of local cells to the contact dofs owned by other processes. |
| `Contact.GeometricContact.GetCellMetaData` | dolfin/geometry/GeometricContact.h:118-126 | Returns the stored list for a master facet, or `[]` if it has none. It inserts `m ↦ []` for an absent key, changes no other entry, and leaves the four getters' maps unchanged. |
| `Contact.LookupTwice` | dolfin/geometry/GeometricContact.h:118-121 | Two consecutive calls of `get_cell_meta_data` return the same list. |
| `TpetraIndexing.GlobalSlot` | dolfin/la/TpetraVector.cpp:189-194 | A global row resolves exactly when it is in the ghosted map. It resolves to the first slot that holds it. |
| `TpetraIndexing.ValidCount` | dolfin/la/TpetraVector.cpp:237-246 | The row loops process exactly the leading rows that resolve. The first row that does not resolve is the one reported. |
| `TpetraIndexing.AssignUntouched` | dolfin/la/TpetraVector.cpp:233-247 | Writing rows leaves every slot no row names unchanged. |
| `TpetraIndexing.AssignLastWins` | dolfin/la/TpetraVector.cpp:233-247 | A written slot holds the value of the last row that names it. |
| `TpetraIndexing.GetAfterSet` | dolfin/la/TpetraVector.cpp:180-247 | Reading back rows just written to distinct slots gives the written block. |
| `TpetraIndexing.AccumulateAt` | dolfin/la/TpetraVector.cpp:265-277 | Adding rows adds to each slot the sum of the block values aimed at it. |
| `TpetraIndexing.ContributionUntouched` | dolfin/la/TpetraVector.cpp:265-277 | A slot no row names receives nothing from an add. |
| `TpetraIndexing.AssignFirstSlots` | dolfin/la/TpetraVector.cpp:303-319 | The bulk `set_local` equals writing `values[i]` to slot `i` row by row. |
| `TpetraIndexing.AccumulateFirstSlots` | dolfin/la/TpetraVector.cpp:321-335 | The bulk `add_local` equals adding `values[i]` into slot `i` row by row. |
| `TpetraIndexing.ShiftIsAddedConstant` | dolfin/la/TpetraVector.cpp:505-514 | Adding a scalar to the owned entries equals `add_local` of the constant array. |
| `TpetraIndexing.ShiftInverse` | dolfin/la/TpetraVector.cpp:523-528 | Subtracting a scalar undoes adding it. |
| `TpetraIndexing.OwnedRowsResolve` | dolfin/la/TpetraVector.cpp:614-615 | When the ghosted map starts with the owned range, owned global index `g` resolves to slot `g - lo`. |
| `TpetraLayout.LocalToGlobalAsWrittenEntries` | dolfin/la/TpetraVector.cpp:608-617 | The array as written has length `n + u`. Entry `i < n` is `r0 + i`, entry `n + i` is `bs * unowned[i]`, and the remaining `u - |unowned|` entries are 0. |
| `TpetraLayout.FillLocalToGlobalAsWritten` | dolfin/la/TpetraVector.cpp:608-617 | The two fill loops, over a value-initialised array, produce exactly the array as written. |
| `TpetraLayout.FillOwned` | dolfin/la/TpetraVector.cpp:614-615 | The first loop writes the owned indices `r0, ..., r0 + n - 1` into the first `n` slots and leaves the rest alone. |
| `TpetraLayout.FillBlockStarts` | dolfin/la/TpetraVector.cpp:616-617 | The second loop as written sets slot `n + i` to `bs * unowned[i]` and leaves every other slot alone. |
| `TpetraLayout.FillExpandedBlocks` | dolfin/la/TpetraVector.cpp:616-617 | The corrected second loop fills slots `n` to `n + bs * |unowned|` with the expanded ghost blocks, leaving the owned slots alone. |
| `TpetraLayout.FillLocalToGlobal` | dolfin/la/TpetraVector.cpp:608-617 | The corrected fill produces the owned range followed by every scalar of every ghost block. |
| `TpetraLayout.LocalToGlobalEntries` | dolfin/la/TpetraVector.cpp:608-617 | The corrected array has length `n + bs * |unowned|` and starts with the owned range. Its entry `n + bs * j + c` is `bs * unowned[j] + c`. |
| `TpetraLayout.UnitBlocksAgree` | dolfin/la/TpetraVector.cpp:611-617 | With block size 1 the code as written and the corrected fill give the same array. |
| `TpetraLayout.AsWrittenDropsGhostScalars` | dolfin/la/TpetraVector.cpp:611-617 | With block size 2 or more and a ghost block, the last ghost slot as written holds global index 0. The corrected array holds the last scalar of the last ghost block there. |
| `TpetraLayout.AsWrittenExample` | dolfin/la/TpetraVector.cpp:611-617 | For `r0 = 0`, `n = 2`, `bs = 2` and ghost block `[5]`, the array as written is `[0, 1, 10, 0]`. The corrected array is `[0, 1, 10, 11]`. |
| `Tpetra.WriteSlots` | dolfin/la/TpetraVector.cpp:237-246 | The write loop of `set` and `set_local` processes exactly the leading rows that resolve. It writes their values to their slots in order. |
| `Tpetra.AddSlots` | dolfin/la/TpetraVector.cpp:269-276 | The loop of `add` and `add_local` processes exactly the leading rows that resolve. It accumulates their values into their slots in order. |
| `Tpetra.TpetraVector.constructor` | dolfin/la/TpetraVector.cpp:35-38 | A default vector is uninitialised with size 0, local size 0, and is empty. |
| `Tpetra.TpetraVector.WithSize` | dolfin/la/TpetraVector.cpp:40-43 | The vector is initialised with the given owned range and no ghosts. All entries are zero. |
| `Tpetra.TpetraVector.Copy` | dolfin/la/TpetraVector.cpp:45-57 | Copying an uninitialised vector gives an uninitialised one. Otherwise the copy has the same maps and a fresh array with the same entries. |
| `Tpetra.TpetraVector.Size` | dolfin/la/TpetraVector.cpp:150-155 | `size()` is 0 for an uninitialised vector and the global size once initialised. |
| `Tpetra.TpetraVector.LocalSize` | dolfin/la/TpetraVector.cpp:157-162 | `local_size()` is 0 for an uninitialised vector. Once initialised it is the width of the owned range, and the owned entries fit in the local array. |
| `Tpetra.TpetraVector.Empty` | dolfin/la/TpetraVector.cpp:145-148 | `empty()` holds exactly when `size()` is 0, so it always holds for an uninitialised vector. |
| `Tpetra.TpetraVector.LocalRange` | dolfin/la/TpetraVector.cpp:164-170 | `local_range()` starts at the first owned index. It is well ordered, and its width is `local_size()`. |
| `Tpetra.TpetraVector.OwnsIndex` | dolfin/la/TpetraVector.cpp:172-178 | `owns_index(i)` holds exactly when `i` lies in the owned range. An owned index has a local slot `i - lo` below `local_size()`. |
| `Tpetra.UninitialisedIsEmpty` | dolfin/la/TpetraVector.cpp:145-162 | An uninitialised vector has `size() == 0` and `local_size() == 0`, and `empty()` holds. |
| `Tpetra.OwnedIndexCount` | dolfin/la/TpetraVector.cpp:164-178 | `owns_index` holds for exactly `local_size()` indices, those in `[local_range().first, local_range().second)`. |
| `Tpetra.OwnedRowSlot` | dolfin/la/TpetraVector.cpp:172-178 | When the ghosted map starts with the owned range, an owned global row and its offset name the same slot. So `set` and `add` by global row reach the entry the owned-array operations see. |
| `Tpetra.TpetraVector.Zero` | dolfin/la/TpetraVector.cpp:64-68 | Every entry, owned and ghost, becomes 0. |
| `Tpetra.TpetraVector.InitFromRange` | dolfin/la/TpetraVector.cpp:640-677 | A second initialisation fails with `AlreadyInitialised` and changes nothing. Otherwise it sets the range and global size, uses the given map (or the owned range when the map is empty), and zeroes all entries. |
| `Tpetra.TpetraVector.InitWithSize` | dolfin/la/TpetraVector.cpp:121-126 | Same guard. Initialises with the process's range and no ghosts. |
| `Tpetra.TpetraVector.InitWithRange` | dolfin/la/TpetraVector.cpp:128-133 | Same guard. Initialises with the given range and no ghosts. |
| `Tpetra.TpetraVector.InitWithMap` | dolfin/la/TpetraVector.cpp:135-143 | Same guard. Initialises with the given local-to-global map; the ghost index list does not affect the state. |
| `Tpetra.TpetraVector.InitFromLayout` | dolfin/la/TpetraVector.cpp:581-638 | Fails with `AlreadyInitialised` on a second initialisation, and with `NotDenseRankOne` for a layout that is not dense and of rank 1. Both failures change nothing. Otherwise the ghosted map is the corrected local-to-global array and the map starts with the owned range. |
| `Tpetra.TpetraVector.ReadRows` | dolfin/la/TpetraVector.cpp:187-195 | The loop shared by `get` and `get_local` (the latter at lines 221-230) reads rows in order. It fails with the first row that names no slot. Otherwise it returns the entries of the slots the rows name. |
| `Tpetra.TpetraVector.Get` | dolfin/la/TpetraVector.cpp:180-196 | Fails with the first global row not in the ghosted map. Otherwise returns the entry of each row's slot. |
| `Tpetra.TpetraVector.GetLocal` | dolfin/la/TpetraVector.cpp:216-231 | Fails with the first row that is not a local slot. Otherwise returns those slots' entries. |
| `Tpetra.TpetraVector.Set` | dolfin/la/TpetraVector.cpp:233-247 | Through `WriteSlots`, writes the leading rows that resolve, in order. It fails at the first row not in the map and keeps the earlier writes. |
| `Tpetra.TpetraVector.SetLocal` | dolfin/la/TpetraVector.cpp:249-263 | The same as `Set`, with rows naming local slots. |
| `Tpetra.TpetraVector.Add` | dolfin/la/TpetraVector.cpp:265-277 | Through `AddSlots`, accumulates into the slots of the leading rows that resolve. It fails at the first row not in the map and keeps the earlier sums. |
| `Tpetra.TpetraVector.AddLocal` | dolfin/la/TpetraVector.cpp:279-293 | The same as `Add`, with rows naming local slots. |
| `Tpetra.TpetraVector.GetLocalValues` | dolfin/la/TpetraVector.cpp:295-301 | Returns `local_size()` values, the owned entries in local order. |
| `Tpetra.TpetraVector.SetLocalValues` | dolfin/la/TpetraVector.cpp:303-319 | Fails with `SizeMismatch` and changes nothing unless `|values| == local_size()`. Otherwise it overwrites the owned entries and leaves the ghosts alone. Zero values change nothing. |
| `Tpetra.TpetraVector.AddLocalValues` | dolfin/la/TpetraVector.cpp:321-335 | Fails with `SizeMismatch` and changes nothing unless `|values| == local_size()`. Otherwise it adds `values[i]` to entry `i` for every `i`. |
| `Tpetra.TpetraVector.AddScalar` | dolfin/la/TpetraVector.cpp:505-514 | Adds `a` to each of the first `local_size()` entries and leaves the ghosts alone. |
| `Tpetra.TpetraVector.SubtractScalar` | dolfin/la/TpetraVector.cpp:523-528 | The same state change as `AddScalar(-a)`. |
| `Tpetra.TpetraVector.AssignScalar` | dolfin/la/TpetraVector.cpp:536-541 | Every owned entry becomes `a` and the ghosts are unchanged. |
| `Tpetra.TpetraVector.AssignFrom` | dolfin/la/TpetraVector.cpp:543-574 | Fails with `LengthMismatch` if the global sizes differ, else with `LayoutMismatch` if the local ranges differ; a failure changes nothing. Otherwise it copies the other vector's owned entries. Self-assignment changes nothing. |

## Left out

- The contact pipeline is declared in the header but has no bodies there, so its behaviour is not modelled: `contact_surface_map_volume_sweep`, `tabulate_contact_cell_to_shared_dofs`, `tabulate_contact_shared_cells`, the tri/edge collision tests, prism mesh construction, off-process pair exchange and collided-cell dof tabulation. The invariants those methods would establish are left out for the same reason: master/slave symmetry and the owned/off-process dof partition.
- `CellMetaData` is shared through `shared_ptr` in the source. Here the lists hold the records themselves. The records are immutable, so the sharing cannot be observed.
- Map keys and dof indices are unbounded naturals, not 64-bit words. Only the two size helpers model word arithmetic.
- Contact.CellsPerFacet: the contract states the result for `tdim = 0` and for `1 <= tdim <= 2^62`. The wrap-around for larger `tdim` is computed in the body but not stated in the contract.
- Contact.VerticesPerFacet: the contract states the result for `tdim < 2^63`. The wrap-around for larger `tdim` is computed in the body but not stated in the contract.
- Tpetra.TpetraVector.InitFromRange, Tpetra.TpetraVector.InitWithRange, Tpetra.TpetraVector.InitWithMap: these require `range.0 <= range.1`, and a non-empty local-to-global map at least as long as the owned range. In the source a reversed range wraps the `size_t` width at line 654, and a short map makes the owned view at line 676 fail. Both failures are raised inside Tpetra, so they are not modelled as errors. Callers guarantee both conditions: `MPI::local_range` returns an ordered range, and DOLFIN's local-to-global maps list every owned index first.
- Floating-point values are modelled as `real`, so rounding in `add`, `add_local` and `+=` is not modelled.
- The numerical operations of `TpetraVector` are left out: `inner`, `norm`, `min`, `max`, `sum`, `axpy`, `abs`, `*=`, `/=`, and `+=`/`-=` of a vector. They are reductions and updates done inside Tpetra, some with MPI reductions. `sum(rows)` is not implemented in the source.
- The communication and output of `TpetraVector` are left out: `apply`, `update_ghost_values`, `gather`, `gather_on_zero`, `mpi_comm`, `mapdump`, `str`, `factory` and `vec`. These are Tpetra import/export, MPI and string formatting. `copy()` only wraps the copy constructor, which `Copy` models. `operator=(GenericVector)` is a downcast to `operator=(TpetraVector)`, which `AssignFrom` models.
- Three MPI results are parameters, not computed: the MPI sum of local sizes, `MPI::local_range`, and Tpetra's own placement of a contiguous map. The model takes the owned range as given. This matches Tpetra when the processes' ranges are contiguous and in rank order.
- A global index that a map lists twice resolves to its first slot. Tpetra does not define the result in that case.
- Tpetra reports an invalid minimum index for a process that owns no entries. The model returns the given range.
- `la_index` overflow of `r0 + i` and `bs * unowned[i]` is not modelled.
- `init(TensorLayout)` does not compile as written: a `dolfin_error` call lacks its closing `);` and `comm` is undeclared. It is modelled by its evident intent. The communicator is not part of this model in any case.
- The `IndexMap` and `TensorLayout` classes are not part of this model. Their sizes, block size, first owned index and ghost blocks are given as plain fields of `Tpetra.TensorLayout`.

## Findings

| source | as written | input that shows it | evidently intended | confidence | as-written member | corrected member |
|---|---|---|---|---|---|---|
| dolfin/la/TpetraVector.cpp:614-617 | The array has `n + u` slots with `u = bs * |unowned|` ghost slots, but the ghost loop runs over the `|unowned|` blocks and writes only `bs * unowned[i]` at slot `n + i`. For `bs > 1` the other ghost slots keep global index 0, and the block's other scalars are missing. | `r0 = 0`, `n = 2`, `bs = 2`, `unowned = [5]`, `u = 2` gives `[0, 1, 10, 0]`: owned index 0 reappears as a ghost and 11 is absent. | One slot per ghost scalar: slot `n + bs * j + c` holds `bs * unowned[j] + c`, giving `[0, 1, 10, 11]`. | medium; not executed | `TpetraLayout.AsWrittenDropsGhostScalars` | `TpetraLayout.FillLocalToGlobal` |
