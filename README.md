# Upwinding, the upwind factory and the field-backed domain function

This project models three small pieces of Amanzi, a subsurface flow and transport code:

- **Flux-based standard upwinding** (`UpwindStandard`, in `upwind_standard.dfy`).
  - `Init` reads a tolerance and an order from a parameter list, with defaults.
  - `Compute` first resets the face component of the output to zero. It then computes one tolerance from the extreme face fluxes. Finally it sweeps every used cell and each of the cell's faces. At each face it assigns the cell value, or a boundary value passed through the model, or (on near-zero faces) adds the cell's volume-weighted share.
  - The model is a class. Its `Compute` works on an `array<real>` with nested loops and is proved equal to `Upwinded`, a fold over cells and faces in visiting order.
  - `ComputedFace` proves that, on a conforming mesh, the fold gives every boundary face and every internal face without a boundary condition its value stated case by case (`FaceValue`), whatever order the cells come in. Internal faces carrying a boundary marker are not covered (see "## Left out").
- **The upwind factory** (`UpwindFactory.Create`, in `upwind_factory.dfy`). It dispatches on the string parameter "upwind method" to one of three variants. Each variant is initialised from its own sub-list, or Create fails with a configuration error. It is modelled as a function returning a `Result`.
- **The field-backed domain function** (`PK_DomainFunctionField`, in `domain_function_field.dfy`).
  - `Init` reads the submodel, the regions and the keyword sub-list, then collects the owned entities of every region into a set.
  - `Compute` overwrites the value map at exactly those entities with the field's values scaled by a factor.
  - `getType` reports the field kind.
  - The model is a class with a `set<int>` of entities and a `map<int, seq<real>>` of values.

Shared pieces:

- `parameter_lists.dfy` models the Teuchos parameter list. It covers typed entries, reads with and without a default, and `sublist` on const and non-const lists. It also distinguishes Teuchos's own exceptions from Amanzi's `Errors::Message`.
- `upwind_mesh.dfy` models the mesh as plain data:
  - per-cell lists of (face, direction);
  - per-face cell lists;
  - cell volumes.
- It also defines the order in which the sweep visits a face (`History`). `HistoryShape` proves that on a conforming mesh each adjacent cell visits the face exactly once, in increasing cell order.

## Model

| member | source | states |
|---|---|---|
| UpwindStandard.ReadSettings | src/operators/UpwindStandard.hh:67-70 | The method is always flux upwinding. "tolerance" is the stored double or the default relative tolerance; "order" is the stored int or 1. A stored value of another type fails with a type error naming the first mistyped parameter, "tolerance" before "order"; success holds exactly when neither is mistyped. |
| UpwindStandard.ReadSettingsRoundTrip | src/operators/UpwindStandard.hh:67-70 | A list that states a tolerance and an order reads back as exactly those settings. |
| UpwindStandard.UpwindStandard.Init | src/operators/UpwindStandard.hh:63-71 | Sets the method to flux upwinding. Passes exactly when ReadSettings succeeds, and then leaves the fields equal to its settings. Fails with ReadSettings' error. A failed read leaves the settings it did not reach unchanged. |
| UpwindStandard.MinValue | src/operators/UpwindStandard.hh:100 | The result is one of the fluxes and no flux is smaller. |
| UpwindStandard.MaxValue | src/operators/UpwindStandard.hh:101 | The result is one of the fluxes and no flux is larger. |
| UpwindStandard.FluxScale | src/operators/UpwindStandard.hh:99-102 | max(\|min flux\|, \|max flux\|) is non-negative, bounds every \|flux\| and equals the \|flux\| of some face. |
| UpwindStandard.FlowTolerance | src/operators/UpwindStandard.hh:102 | The tolerance is non-negative whenever the relative tolerance is. |
| UpwindStandard.Share | src/operators/UpwindStandard.hh:120-126 | A cell's weight on a near-zero face is strictly between 0 and 1 (the neighbour's volume over the sum, or 1/2 without a neighbour). |
| UpwindStandard.WeightsSumToOne | src/operators/UpwindStandard.hh:125 | The two averaging weights v2/(v1+v2) and v1/(v1+v2) are in (0,1) and sum to 1. |
| UpwindStandard.VolumeAverage | src/operators/UpwindStandard.hh:119-127 | k1·v2/(v1+v2) + k2·v1/(v1+v2) lies between k1 and k2. |
| UpwindStandard.OneSideIsInflow | src/operators/UpwindStandard.hh:116 | When \|flux\| exceeds the tolerance, one of the two opposite orientations of a face carries the inflow flag. |
| UpwindStandard.VisitOrderIrrelevant | src/operators/UpwindStandard.hh:116-139 | On a face without boundary condition, two visits from opposite orientations give the same value in either order. |
| UpwindStandard.SweepFacesAt | src/operators/UpwindStandard.hh:114-140 | The inner loop changes face f only through the cell's own visits to f, in list order. |
| UpwindStandard.SweepCellsAt | src/operators/UpwindStandard.hh:109-141 | After the first k cells, face f holds the replay of the visits f received from those cells. |
| UpwindStandard.SweepCellStep | src/operators/UpwindStandard.hh:110-140 | One more cell of the outer loop extends face f's value by exactly that cell's visits to f. |
| UpwindStandard.BoundaryReplay | src/operators/UpwindStandard.hh:116-139 | The single visit to a boundary face, starting from 0, gives FaceValue. |
| UpwindStandard.InternalReplay | src/operators/UpwindStandard.hh:116-139 | The two visits to an internal face without condition, starting from 0, give FaceValue. |
| UpwindStandard.ReplayHistory | src/operators/UpwindStandard.hh:109-141 | The whole history of a boundary face, or of an internal face without condition, gives FaceValue. |
| UpwindStandard.ComputedFace | src/operators/UpwindStandard.hh:97-141 | On a conforming mesh, the computed face value equals FaceValue on every boundary face and every internal face without condition. FaceValue covers: the volume average; half the cell value; the outflow cell's value; the model's value of the Dirichlet boundary value on inflow; the cell value on Neumann or mixed inflow and on outflow; 0 otherwise. |
| UpwindStandard.InternalFaceTakesOutflowCell | src/operators/UpwindStandard.hh:116-139 | An internal face without condition whose \|flux\| exceeds the tolerance takes the value of the cell with flux·dir > 0, whichever cell is swept first. |
| UpwindStandard.OutflowValue | src/operators/UpwindStandard.hh:137-138 | FaceValue of such a face is the outflow cell's value. |
| UpwindStandard.NearZeroInternalFaceAverages | src/operators/UpwindStandard.hh:119-127 | An internal near-zero face without condition ends with k1·v2/(v1+v2) + k2·v1/(v1+v2), accumulated from 0. |
| UpwindStandard.NearZeroBoundaryFaceHalves | src/operators/UpwindStandard.hh:120-127 | A boundary near-zero face without condition ends with half its cell's value. |
| UpwindStandard.DirichletCutoffIsInflow | src/operators/UpwindStandard.hh:116-130 | The cut-off is inclusive: a Dirichlet face with flux·dir exactly −tol takes Value(c, bc_value[f]). |
| UpwindStandard.UnmatchedFaceStaysZero | src/operators/UpwindStandard.hh:97-139 | A boundary face without condition, entered by flow above the tolerance, matches no branch and keeps the 0 it was reset to. |
| UpwindStandard.UpwindStandard.Compute | src/operators/UpwindStandard.hh:78-142 | The face array ends equal to Upwinded: zeroed, then swept over every cell in order with the tolerance computed once. Only that array is written. |
| UpwindStandard.UpwindStandard.SweepCell | src/operators/UpwindStandard.hh:110-140 | One pass of the outer loop applies the cell's visits to its faces in list order. |
| UpwindStandard.UpwindStandard.VisitFace | src/operators/UpwindStandard.hh:115-139 | One pass of the inner loop changes only the visited face, to Visit of its old value. |
| UpwindMesh.Mesh.AdjCell | src/operators/UpwindStandard.hh:121 | The cell across a face is −1 exactly when the face does not have two cells; otherwise it is the other cell of the face. |
| UpwindMesh.VisitsInCellExact | src/operators/UpwindStandard.hh:110-115 | A cell that lists a face once visits it exactly once, with that entry's direction; a cell that does not list it never visits it. |
| UpwindMesh.HistoryShape | src/operators/UpwindStandard.hh:109-115 | On a conforming mesh, the visits a face receives from the first k cells are those of its adjacent cells below k, lower cell first. |
| UpwindMesh.FullHistory | src/operators/UpwindStandard.hh:109-115 | Over the whole sweep, a boundary face is visited once from its cell, and an internal face once from each of its two cells, in one order or the other. |
| UpwindFactory.Create | src/operators/UpwindFactory.hh:48-76 | A missing "upwind method" fails with the "is missing" message, and a non-string one with a type error. An unknown name fails with a message naming it. A known name succeeds exactly when its sub-list (empty if absent) can be read and, for "standard", its settings read. A success is the variant the name selects, initialised from "upwind <name> parameters". |
| UpwindFactory.UnsupportedNamesMethod | src/operators/UpwindFactory.hh:69-73 | The unsupported-method message contains the given name right after its prefix. |
| UpwindFactory.StandardRoundTrip | src/operators/UpwindFactory.hh:54-58 | Selecting "standard" with a sub-list stating some settings gives the standard variant with those settings. |
| UpwindFactory.OtherRoundTrip | src/operators/UpwindFactory.hh:59-68 | Selecting "divk" or "second-order" gives that variant initialised from the sub-list it was given. |
| UpwindFactory.StandardWithoutSublist | src/operators/UpwindFactory.hh:53-58 | Any list that selects "standard" and has no "upwind standard parameters" entry gives the default settings, because the missing sub-list is created empty. |
| DomainFunctionField.ReadSource | src/pks/PK_DomainFunctionField.hh:109-113 | Reading the keyword sub-list succeeds exactly when the sub-list exists, holds a string "field key", and holds no mistyped "tag", "component" or "scaling factor". The defaults are "", "cell" and 1.0. Every failure is a Teuchos exception, never a message. |
| DomainFunctionField.ReadSourceAsWritten | src/pks/PK_DomainFunctionField.hh:108-118 | The catch clause as written: it agrees with ReadSource on success, and every failure of the sub-list reads is ReadSource's own Teuchos error, passed through unchanged and unprefixed. |
| DomainFunctionField.AsWrittenMissingFieldKeyUnprefixed | src/pks/PK_DomainFunctionField.hh:108-118 | As written, a sub-list without "field key" fails with an unprefixed Teuchos name error. |
| DomainFunctionField.ReadSourceCaught | src/pks/PK_DomainFunctionField.hh:108-118 | The corrected handling: same success, and every failure becomes a message "error in source sublist : " followed by what() of the original. |
| DomainFunctionField.CaughtFailuresArePrefixed | src/pks/PK_DomainFunctionField.hh:114-117 | Every corrected failure is a message that starts with the prefix and continues with what failed. |
| DomainFunctionField.RegionIdsKnown | src/pks/PK_DomainFunctionField.hh:126-135 | The region lookup succeeds exactly when every listed region is a valid set of the kind. |
| DomainFunctionField.RegionIdsUnion | src/pks/PK_DomainFunctionField.hh:123-130 | On success, an id is collected exactly when it is an owned entity of some listed region. |
| DomainFunctionField.RegionIdsFirstUnknown | src/pks/PK_DomainFunctionField.hh:126-134 | On failure, the error is the "Unknown region" message naming the first invalid region; all regions before it are valid. |
| DomainFunctionField.RegionIdsStopsAt | src/pks/PK_DomainFunctionField.hh:126-134 | The first unknown region decides the error, whatever follows it. |
| DomainFunctionField.RegionIdsAbsorbs | src/pks/PK_DomainFunctionField.hh:123-129 | Listing a region again changes nothing: duplicates collapse in the set. |
| DomainFunctionField.Configure | src/pks/PK_DomainFunctionField.hh:102-135 | On success, the submodel is "submodel" if given, else "rate"; the regions are read; the source settings are ReadSource's; the entities are the region lookup's. A failure to read the regions or the sub-list fails. A sub-list failure after good submodel and regions is the prefixed message. When submodel, regions and sub-list all read, it succeeds exactly when the region lookup does, and otherwise fails with the lookup's error. |
| DomainFunctionField.ConfigureUnknownRegion | src/pks/PK_DomainFunctionField.hh:126-134 | When submodel, regions and sub-list read, Init fails exactly with the "Unknown region" message naming the first region that is not a set of the kind. |
| DomainFunctionField.DomainFunctionField.Init | src/pks/PK_DomainFunctionField.hh:97-136 | Sets the keyword. Passes exactly when Configure succeeds, and then the fields equal Configure's result. Fails with Configure's error. The value map is untouched. |
| DomainFunctionField.DomainFunctionField.CollectRegions | src/pks/PK_DomainFunctionField.hh:123-135 | The region loop passes exactly when the lookup succeeds and leaves its union in the entity set; otherwise it fails with the lookup's error. |
| DomainFunctionField.Scaled | src/pks/PK_DomainFunctionField.hh:155 | The refilled vector has one entry per field vector, entry i being factor · field[i][c]. |
| DomainFunctionField.Refreshed | src/pks/PK_DomainFunctionField.hh:154-157 | After a refresh, the keys are the old keys plus the target ids. Each target id maps to the scaled values (length equal to the vector count, entry i = factor · field[i][c]). Every other entry is unchanged. |
| DomainFunctionField.RefreshIdempotent | src/pks/PK_DomainFunctionField.hh:154-157 | Refreshing twice with the same field is refreshing once. |
| DomainFunctionField.RefreshOneMore | src/pks/PK_DomainFunctionField.hh:154-157 | Refreshing one more entity changes only that entry. |
| DomainFunctionField.DomainFunctionField.Compute | src/pks/PK_DomainFunctionField.hh:143-158 | The value map ends equal to Refreshed of the old map over the entity set, whatever order the set is walked in. |
| DomainFunctionField.DomainFunctionField.Store | src/pks/PK_DomainFunctionField.hh:155-156 | One pass of the loop stores the scaled values under c and changes no other entry. |
| DomainFunctionField.DomainFunctionField.GetType | src/pks/PK_DomainFunctionField.hh:73 | Always the field kind. |

## Left out

- Ghost exchange (`ScatterMasterToGhosted`), `VerboseObject` output and MPI: the model takes synchronised arrays over all used cells and faces.
- Floating point: all arithmetic is exact `real` arithmetic, so rounding in the averages and products is not modelled.
- The `solution` argument of `Compute` is unused by the code and is not a parameter of the model.
- The `Model::Value` callback is a parameter function of the inputs. The mesh queries (`cell_get_faces_and_dirs`, `cell_volume`, `isValidSetName`, `getSetEntities`) are given data or parameter functions.
- `cell_get_face_adj_cell` of `MFD3D_Diffusion` is not part of this model. `AdjCell` takes it as the other cell of a two-cell face, and −1 otherwise.
- The constants of OperatorDefs.hh are not part of this model:
  - the boundary markers are a datatype, with `BcOther` for any other marker;
  - the default relative tolerance is taken as 1e-12.
- The Epetra `MinValue`/`MaxValue` of an empty vector: with no face, the model takes a flux scale of 0, and no face is visited anyway.
- UpwindStandard.ComputedFace: the closed form covers boundary faces and internal faces without a boundary condition. On an internal face with a marker, the result depends on which cell is swept last. That case is stated only through the order-dependent `Upwinded`.
- The `Init` of `UpwindDivK` and `UpwindSecondOrder` is not part of this model. Those variants keep the sub-list they were handed.
- Two list mutations of Teuchos are not modelled; the reads do not change the caller's list:
  - `get` with a default inserts the default into the list;
  - `sublist` on a non-const list inserts the empty sub-list it creates, as `Create` does for "upwind <name> parameters".
  `Create` returns the variant only, not the updated list.
- `Keys::readTag` is not part of this model; the tag is read as an optional string with default "".
- The evaluator update in `Compute` (`HasEvaluator`, `Update`) and the `State` lookup are left out: the model's `Compute` takes the field component as a `seq<seq<real>>`, one vector per field vector.
- The full `DomainFunction_kind` enumeration is not part of this model; `OtherKind` stands for the kinds of the other domain functions.
- The text of an entity kind in the "Unknown region" message is taken as "cell", "face", "edge" or "node".
- DomainFunctionField.Configure: models the corrected catch clause of the Findings row (ReadSourceCaught), not the code as written. As written, a Teuchos failure in the keyword sub-list (a missing "field key", say) escapes with no "error in source sublist" prefix, as ReadSourceAsWritten states; the model prefixes it.
- DomainFunctionField.DomainFunctionField.Init: goes through Configure, so it too gives the prefixed message where the code as written passes the Teuchos exception through unprefixed.
- ParameterLists.What: of a Teuchos exception's what() text only the parameter name is kept, so the prefixed message carries the name rather than Teuchos's full text.
- DomainFunctionField.DomainFunctionField.Init: does not state which fields a failed `Init` has already assigned. The code leaves the partial assignments in place.
- DomainFunctionField.DomainFunctionField.Compute: `std::set` walks the entities in increasing order, while the model picks them in an arbitrary order. The result is proved independent of that order.
- DomainFunctionField.DomainFunctionField.CollectRegions: on failure the partially filled entity set is not stated.
- The two loop bodies of each `Compute` are written as helper methods (`SweepCell`, `VisitFace`, `Store`) called from the loops.

## Findings

| source | as written | input that shows it | evidently intended | confidence | as-written member | corrected member |
|---|---|---|---|---|---|---|
| src/pks/PK_DomainFunctionField.hh:108-118 | The try block reads the keyword sub-list with Teuchos calls, but the catch clause only matches `Errors::Message`. Teuchos's `InvalidParameterName`/`InvalidParameterType` are not messages, so they escape unprefixed. | A keyword sub-list without "field key" (or without the sub-list itself) | Every failure reading the source sub-list is re-raised as "error in source sublist : " followed by the original text | medium, not executed | DomainFunctionField.AsWrittenMissingFieldKeyUnprefixed | DomainFunctionField.CaughtFailuresArePrefixed |
