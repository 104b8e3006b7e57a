# Grasshopper–BricsCAD connection, modelled in Dafny

The Grasshopper–BricsCAD connection lets a BricsCAD drawing carry Grasshopper definitions. An
entity can hold a Grasshopper record (`DbGrasshopperData`). The record names a definition file, a
visibility flag and a name-ordered table of typed input values. The plug-in keeps what the
definitions compute in step with the drawing:

- the drawing's reactors log the objects that were modified, erased or appended, and the commands
  that ended;
- when BricsCAD is idle, the log is drained, and the Grasshopper parameters and components whose
  entities changed are expired;
- each drawing has a manager that re-runs the records waiting for an update (the player binds the
  stored values, or the host entity, into the definition's `BcIn_` inputs);
- the last preview of every record is cached as a drawable that replaces the entity's own
  drawing;
- on request, a definition's output is baked into real entities.

Around this core sit smaller parts:

- the C++ object enabler (typed property values, the record with its versioned DWG filing, and the
  Properties-palette extension) and its .NET wrapper;
- the definition cache;
- the settings read from system variables;
- the preview of the active definition and its highlight bookkeeping;
- the Grasshopper value types of BricsCAD references;
- the path, handle and unit helpers;
- the commands that attach, clear and bake records.

The project has one module per source file or component, plus a few shared modules:

- `Wrappers` holds `Option` and `Result`.
- `HostTypes` holds object ids, handles, documents, points and colours; ids and handles are
  integers.
- `Text` holds the string order, splitting and number renderings.
- `Paths` models `System.IO.Path`.
- `Filer` models the DWG filer as a sequence of typed items.
- `GhKernel` holds the parts of Grasshopper's kernel the plug-in uses.

State the source changes in place is a `class`: the change buffers, the managers and their caches,
the preview drawable, the record and the property, the palette registry and the goo objects. Loops
of the source are `while` loops proved against functions on values. Oracles are parameters, never
bodiless functions. This covers the file system (the set of existing files), what reading an
archive gives, which objects open as records, Grasshopper's preview extraction and the BIM
library.

Both versions of the manager are modelled: `Grasshopper-BricsCAD/GhDefinitionManager.cs` and the
older `Grasshopper-BricsCAD/GhDefintionManager.cs`. Members that model only the older one end in
`Older` or are in `DataManagerOlder`.

Three behaviours of the manager that a reader might not expect are modelled as the code has them:

- A reload queues every cached record that opens, whatever definition it uses
  (`Grasshopper-BricsCAD/GhDefinitionManager.cs:113-128`).
- An erase removes the cache entry keyed by the erased object's own id, also when that object is
  the entity rather than its record (`Grasshopper-BricsCAD/GhDefinitionManager.cs:377-394`).
- `AddGrasshopperData` never inserts into the drawable cache
  (`Grasshopper-BricsCAD/GhDefinitionManager.cs:250-271`).

Elsewhere the model uses corrected behaviour where a finding below shows the code to be wrong: the
relative definition path, the guard of `ToGrasshopper` and the text of a geometry reference (each
named under "Left out"). The preview keeps the stale highlight as the code has it, and the loop of
the plural prompts (`GeometryParams.PromptPlural`) is stated for either result that continues it,
the one written and the one intended.

## Model

| member | source | states |
|---|---|---|
| Properties.TypeCode | GrasshopperData/src/GhProperty.h:12-21 | the enumerator values run from 0 to 6, and only `eEmpty` is 0 |
| Properties.TypeFromCode | GrasshopperData/src/GhProperty.cpp:181-185 | a byte names a type exactly when it is below 7, and then that type's code is the byte |
| Properties.TypeOf | GrasshopperData/src/GhProperty.cpp:12-29 | every supported C++ value type maps to a non-empty property type |
| Properties.NewData | GrasshopperData/src/GhProperty.cpp:113-123 | data is created exactly for the non-empty types, with the type asked for |
| Properties.EmptyProp | GrasshopperData/src/GhProperty.cpp:236-237 | the default property is well formed, empty, not set and has no data |
| Properties.OfType | GrasshopperData/src/GhProperty.cpp:239-240 | a placeholder has the given type, is not set, and has data unless the type is empty |
| Properties.WithValue | GrasshopperData/src/GhProperty.cpp:142-151 | setting succeeds exactly when data exists and the value's type is the stored type; success stores the value and raises the flag, failure changes nothing; well-formedness is kept |
| Properties.ValueOf | GrasshopperData/src/GhProperty.cpp:153-160 | a successful read returns the stored data, and only for the stored type |
| Properties.OfValue | GrasshopperData/src/GhProperty.cpp:203-217 | a property made from a value has that value's type, is set, and reads back that value |
| Properties.ValueOfExactlyForStoredType | GrasshopperData/src/GhProperty.cpp:153-160 | on a well-formed property a read succeeds exactly for the stored type, set or not, and yields a value of that type |
| Properties.SetThenGet | GrasshopperData/src/GhProperty.cpp:142-160 | a successful set is seen by the next read of the same type, and leaves the property set |
| Properties.PayloadValue | GrasshopperData/src/GhProperty.cpp:84-111 | a payload item read back by data of a type gives a value of that type whose payload is that item |
| Properties.Encode | GrasshopperData/src/GhProperty.cpp:167-174 | the type byte and the flag come first, and the payload follows only when the property is set |
| Properties.RoundTrip | GrasshopperData/src/GhProperty.cpp:167-191 | what `dwgOutFields` writes, `dwgInFields` reads back as a well-formed property with the same type, flag and, when set, value, and the reader stops right after it |
| Properties.DecodeWf | GrasshopperData/src/GhProperty.cpp:176-191 | every property the reader can build is well formed, and reading moves forward within the stream |
| Properties.GhProperty.constructor | GrasshopperData/src/GhProperty.cpp:236-237 | a new default property is the empty property |
| Properties.GhProperty.Placeholder | GrasshopperData/src/GhProperty.cpp:239-240 | a new typed property is the placeholder of that type |
| Properties.GhProperty.FromValue | GrasshopperData/src/GhProperty.cpp:203-217 | a property built from a value is that value, set |
| Properties.GhProperty.Copy | GrasshopperData/src/GhProperty.cpp:137-140 | the copy has the same type, flag and data as the original |
| Properties.GhProperty.Assign | GrasshopperData/src/GhProperty.cpp:247-251 | after assignment the property equals the other one as it was |
| Properties.GhProperty.SetValue | GrasshopperData/src/GhProperty.cpp:209 | the result and the new state are those of `WithValue` on the old state |
| Properties.GhProperty.DwgOutFields | GrasshopperData/src/GhProperty.cpp:256-259 | the filer gains exactly the encoding of the property; the read position and error state are unchanged |
| Properties.GhProperty.DwgInFields | GrasshopperData/src/GhProperty.cpp:176-191 | on a well-formed stream the property becomes the decoded one and the cursor moves past it; otherwise the filer reports an error and the property is empty |
| GrasshopperRecords.MapOfAt | GrasshopperData/src/DbGrasshopperData.h:10 | in a name-ordered table every entry is the map's binding for its name |
| GrasshopperRecords.LowerBound | GrasshopperData/src/DbGrasshopperData.cpp:81 | every name before the returned position sorts below `name`, and on an ordered table the name at it does not |
| GrasshopperRecords.LowerBoundFinds | GrasshopperData/src/DbGrasshopperData.cpp:81-82 | on an ordered table a name is present exactly when it sits at its lower bound, which is the test `addProperty` makes |
| GrasshopperRecords.InsertAtLowerBound | GrasshopperData/src/DbGrasshopperData.cpp:86 | inserting an absent name at its lower bound keeps the table ordered and adds exactly that binding |
| GrasshopperRecords.Added | GrasshopperData/src/DbGrasshopperData.cpp:79-88 | adding succeeds exactly when the name is absent and the value is not empty; the table stays ordered and gains exactly that binding on success and is unchanged on failure |
| GrasshopperRecords.IndexOf | GrasshopperData/src/DbGrasshopperData.cpp:58 | a found position holds the name; no position means the name is absent |
| GrasshopperRecords.Updated | GrasshopperData/src/DbGrasshopperData.cpp:62-77 | updating succeeds exactly when the value is not empty, the name is present and the stored type equals the value's type; on success only that binding changes, order and size are kept; on failure the table is unchanged |
| GrasshopperRecords.Lookup | GrasshopperData/src/DbGrasshopperData.cpp:55-60 | a present name gives its stored property, an absent name the empty property |
| GrasshopperRecords.EntriesItemsAppend | GrasshopperData/src/DbGrasshopperData.cpp:122-126 | the items written for a table with one more entry are the items for the table followed by that entry's name and property |
| GrasshopperRecords.DecodeEncodedEntries | GrasshopperData/src/DbGrasshopperData.cpp:147-154 | reading back the items written for an ordered table appends entries with the same names, in order, with equivalent properties, and ends right after them |
| GrasshopperRecords.AppendLarger | GrasshopperData/src/DbGrasshopperData.cpp:79-88 | adding a name above every stored name appends it at the end |
| GrasshopperRecords.RecordRoundTrip | GrasshopperData/src/DbGrasshopperData.cpp:110-156 | a record written by `dwgOutFields` and read by `dwgInFields` gets back its definition, its visibility and its table (same names in order, equivalent properties), consuming exactly what was written |
| GrasshopperRecords.NewerVersionIsProxy | GrasshopperData/src/DbGrasshopperData.cpp:138-141 | a stream whose version byte is above the class version is refused with eMakeMeProxy |
| GrasshopperRecords.Database.constructor | GrasshopperData/src/DbGrasshopperData.cpp:158-223 | an empty database: no extension dictionaries, dictionaries, records or erased objects |
| GrasshopperRecords.Database.GetGrasshopperData | GrasshopperData/src/DbGrasshopperData.cpp:158-176 | a non-null result is the "GrasshopperData" entry of the entity's extension dictionary |
| GrasshopperRecords.Database.ExtensionDictionary | GrasshopperData/src/DbGrasshopperData.cpp:183-189 | an existing extension dictionary is returned unchanged; otherwise a fresh empty dictionary owned by the entity is created |
| GrasshopperRecords.Database.AttachGrasshopperData | GrasshopperData/src/DbGrasshopperData.cpp:178-206 | attaching succeeds exactly when entity and record are given, the record is not database-resident and the entity's dictionary has no "GrasshopperData" entry; on success the record is stored under a fresh id in that dictionary and its host entity is the entity; on failure nothing changes; no other entity's lookup changes |
| GrasshopperRecords.Database.AttachTo | GrasshopperData/src/DbGrasshopperData.cpp:183-205 | the same outcome as attaching, once entity and record are known |
| GrasshopperRecords.Database.PutRecord | GrasshopperData/src/DbGrasshopperData.cpp:201-203 | `setAt` makes the record resident under a fresh id, owned by the dictionary, with the dictionary's new entry and nothing else changed |
| GrasshopperRecords.Database.RemoveGrasshopperData | GrasshopperData/src/DbGrasshopperData.cpp:208-223 | an entity without a record leaves everything unchanged; otherwise its lookup becomes null and the record is erased; the lookups of all other entities are unchanged |
| GrasshopperRecords.DbGrasshopperData.constructor | GrasshopperData/src/DbGrasshopperData.cpp:15-16 | a new record holds the definition, is not visible, has no properties and is not database-resident |
| GrasshopperRecords.DbGrasshopperData.SetDefinition | GrasshopperData/src/DbGrasshopperData.cpp:27-31 | only the definition changes |
| GrasshopperRecords.DbGrasshopperData.SetVisibility | GrasshopperData/src/DbGrasshopperData.cpp:39-43 | only the visibility changes |
| GrasshopperRecords.DbGrasshopperData.GetPropertiesTypes | GrasshopperData/src/DbGrasshopperData.cpp:45-53 | one (name, type) pair per stored property, in strictly increasing name order, covering every name |
| GrasshopperRecords.DbGrasshopperData.GetProperty | GrasshopperData/src/DbGrasshopperData.cpp:55-60 | a present name gives its stored, non-empty property; an absent name the empty property |
| GrasshopperRecords.DbGrasshopperData.UpdateProperty | GrasshopperData/src/DbGrasshopperData.cpp:62-77 | result and new table are those of `Updated`; the other fields are unchanged |
| GrasshopperRecords.DbGrasshopperData.AddProperty | GrasshopperData/src/DbGrasshopperData.cpp:79-88 | result and new table are those of `Added`; the other fields are unchanged |
| GrasshopperRecords.DbGrasshopperData.ClearProperties | GrasshopperData/src/DbGrasshopperData.cpp:90-94 | the table becomes empty, the other fields are unchanged |
| GrasshopperRecords.DbGrasshopperData.DwgOutFields | GrasshopperData/src/DbGrasshopperData.cpp:110-128 | the filer gains exactly the version, definition, visibility, count and entries |
| GrasshopperRecords.DbGrasshopperData.WriteEntries | GrasshopperData/src/DbGrasshopperData.cpp:122-126 | the filer gains each entry's name and property, in name order |
| GrasshopperRecords.DbGrasshopperData.DwgInFields | GrasshopperData/src/DbGrasshopperData.cpp:130-156 | a failed filer gives an error and an empty table; a later version gives eMakeMeProxy and an empty table; a broken stream fails the filer; otherwise the fields become the decoded record and the cursor moves past it |
| GrasshopperRecords.DbGrasshopperData.ReadEntries | GrasshopperData/src/DbGrasshopperData.cpp:147-154 | reads the entries as `DecodeEntries` does, each re-added with `addProperty` |
| OpmExtension.ToOpmType | GrasshopperData/src/GrasshopperOPMExtension.cpp:19-38 | only `eEmpty` has no palette type |
| OpmExtension.ToOpmTypeInjective | GrasshopperData/src/GrasshopperOPMExtension.cpp:19-38 | distinct value types get distinct palette types |
| OpmExtension.ToOpmValue | GrasshopperData/src/GrasshopperOPMExtension.cpp:40-70 | a variant is produced exactly for a non-empty property, and it holds the property's data with the property's type |
| OpmExtension.ToGh | GrasshopperData/src/GrasshopperOPMExtension.cpp:72-121 | an unsupported variant gives the empty property; a supported one a set property of the variant's type holding its value |
| OpmExtension.PaletteRoundTrip | GrasshopperData/src/GrasshopperOPMExtension.cpp:52-121 | a value shown in the palette and written back gives a set property of the same type and data |
| OpmExtension.VariantRoundTrip | GrasshopperData/src/GrasshopperOPMExtension.cpp:52-121 | a variant turned into a property and shown again is the same variant |
| OpmExtension.GrasshopperDataOpm.constructor | GrasshopperData/src/GrasshopperOPMExtension.cpp:13-15 | the two built-in ids are the first user id and the next; the registry is empty and the counter starts at the last built-in id |
| OpmExtension.GrasshopperDataOpm.GetIdFromName | GrasshopperData/src/GrasshopperOPMExtension.cpp:137-147 | a known name keeps its id; a new name gets the next counter value, above the built-in ids, recorded in both directions; earlier ids keep their names |
| OpmExtension.GrasshopperDataOpm.GetNameFromId | GrasshopperData/src/GrasshopperOPMExtension.cpp:149-153 | a registered id gives its name, any other id the empty string |
| OpmExtension.GrasshopperDataOpm.BuiltInIdsUnregistered | GrasshopperData/src/GrasshopperOPMExtension.cpp:139-146 | the built-in ids never name a stored property |
| OpmExtension.GrasshopperDataOpm.GetDynamicPropertyMap | GrasshopperData/src/GrasshopperOPMExtension.cpp:166-192 | no record: success and no entries; a record that does not open: failure; otherwise Definition, Gh-visibility and one entry per stored property in name order with its registry id and palette type |
| OpmExtension.GrasshopperDataOpm.RegisterEntries | GrasshopperData/src/GrasshopperOPMExtension.cpp:185-190 | one entry per (name, type) pair, in order, each with its name's registry id; earlier registrations are kept |
| OpmExtension.GrasshopperDataOpm.GetPropertyValue | GrasshopperData/src/GrasshopperOPMExtension.cpp:194-224 | succeeds exactly for an opened record and a built-in id or a registered name the record holds; then gives the definition, the visibility or the stored data |
| OpmExtension.GrasshopperDataOpm.SetPropertyValue | GrasshopperData/src/GrasshopperOPMExtension.cpp:226-264 | no opened record: failure; a string for Definition or a bool for Gh-visibility sets that field and keeps the other field and the properties; a wrong kind for a built-in id fails with the record unchanged; other ids keep the definition and visibility: an unknown id fails, a known name gets `updateProperty` with the converted variant; every other record is unchanged |
| ManagedGrasshopperData.ToSystemObject | GrasshopperDataManaged/src/GrasshopperData.cpp:11-63 | null exactly for an empty or unset property; otherwise the stored value boxed with the property's type |
| ManagedGrasshopperData.ObjectToProperty | GrasshopperDataManaged/src/GrasshopperData.cpp:65-96 | a null object throws; an object of another runtime type gives the empty property; a boxed value gives a set property of its type holding it |
| ManagedGrasshopperData.TypeToProperty | GrasshopperDataManaged/src/GrasshopperData.cpp:98-116 | a null type throws; each of the six runtime types gives an unset placeholder of the matching type; any other type the empty property |
| ManagedGrasshopperData.PropertyRoundTrip | GrasshopperDataManaged/src/GrasshopperData.cpp:11-96 | a set property turned into a .NET object and back is the same property |
| ManagedGrasshopperData.ObjectRoundTrip | GrasshopperDataManaged/src/GrasshopperData.cpp:11-96 | a boxed value turned into a property and back is the same object |
| ManagedGrasshopperData.PlaceholderAcceptsValue | GrasshopperDataManaged/src/GrasshopperData.cpp:65-116 | the placeholder for an object's runtime type has the type of the property made from the object and, set to that value, is that property |
| ManagedGrasshopperData.GrasshopperData.constructor | GrasshopperDataManaged/src/GrasshopperData.cpp:118-119 | wraps a fresh native record with no definition, no properties, not visible, not database-resident |
| ManagedGrasshopperData.GrasshopperData.WithDefinition | GrasshopperDataManaged/src/GrasshopperData.cpp:121-125 | a fresh native record whose definition is the given string, or empty for null |
| ManagedGrasshopperData.GrasshopperData.Definition | GrasshopperDataManaged/src/GrasshopperData.cpp:136-140 | null exactly when the native definition is empty, otherwise that definition |
| ManagedGrasshopperData.GrasshopperData.SetDefinition | GrasshopperDataManaged/src/GrasshopperData.cpp:142-146 | the native definition becomes the string (a null string the empty one), and reading it back gives it unless it is empty |
| ManagedGrasshopperData.GrasshopperData.SetVisible | GrasshopperDataManaged/src/GrasshopperData.cpp:153-156 | only the native visibility changes |
| ManagedGrasshopperData.GrasshopperData.GetProperty | GrasshopperDataManaged/src/GrasshopperData.cpp:170-176 | null exactly when the name is absent or its property unset; otherwise the stored value |
| ManagedGrasshopperData.GrasshopperData.UpdateProperty | GrasshopperDataManaged/src/GrasshopperData.cpp:178-183 | a null value throws and changes nothing; otherwise the result and table are those of the native `updateProperty` on the converted value |
| ManagedGrasshopperData.GrasshopperData.AddProperty | GrasshopperDataManaged/src/GrasshopperData.cpp:185-190 | a null value throws and changes nothing; otherwise the result and table are those of the native `addProperty` on the converted value |
| ManagedGrasshopperData.GrasshopperData.AddPropertyOfType | GrasshopperDataManaged/src/GrasshopperData.cpp:192-197 | a null type throws; otherwise the native `addProperty` of the placeholder, which refuses a type outside the six |
| ManagedGrasshopperData.GrasshopperData.ClearProperties | GrasshopperDataManaged/src/GrasshopperData.cpp:199-202 | the native table becomes empty, the other fields are unchanged |
| DefinitionCache.FirstExistingIsFirst | Grasshopper-BricsCAD/GhDefinitionManager.cs:75-95 | the scan finds nothing exactly when the file exists in no directory; otherwise it finds an existing file in some directory, and no earlier directory holds the file |
| DefinitionCache.FirstExistingAppend | Grasshopper-BricsCAD/GhDefinitionManager.cs:75-95 | scanning the extra directories and then the search path is one scan of the two lists joined |
| DefinitionCache.ResolveStable | Grasshopper-BricsCAD/GhDefinitionManager.cs:72-92 | once a name is resolved and remembered it resolves to the same path whatever the extra directories, and other names resolve as before |
| DefinitionCache.LoadIdempotent | Grasshopper-BricsCAD/GhDefinitionManager.cs:44-56 | loading twice is loading once, and a failed read is never cached |
| DefinitionCache.ReloadFailureThenDefinition | Grasshopper-BricsCAD/GhDefinitionManager.cs:25-40 | after a reload whose read failed the cached archive is null and `Definition` throws on it |
| DefinitionCache.GhDefinitionManager.constructor | Grasshopper-BricsCAD/GhDefinitionManager.cs:16-17 | no remembered paths and no archives |
| DefinitionCache.GhDefinitionManager.FindFile | Grasshopper-BricsCAD/GhDefinitionManager.cs:70-97 | a remembered path wins; otherwise the first existing file over the extra directories then the `SRCHPATH` entries, which is remembered; no hit gives null and changes nothing |
| DefinitionCache.GhDefinitionManager.Search | Grasshopper-BricsCAD/GhDefinitionManager.cs:75-95 | the two scans give the first directory of the joined lists that holds the file |
| DefinitionCache.GhDefinitionManager.Scan | Grasshopper-BricsCAD/GhDefinitionManager.cs:75-83 | one scan gives the first directory that holds the file |
| DefinitionCache.GhDefinitionManager.Load | Grasshopper-BricsCAD/GhDefinitionManager.cs:44-56 | an unresolved name changes no archive; a resolved path already cached is not re-read; a read that fails is not stored |
| DefinitionCache.GhDefinitionManager.Reload | Grasshopper-BricsCAD/GhDefinitionManager.cs:34-43 | a resolved name has its slot overwritten with whatever the read gives, possibly null, and is announced; an unresolved name changes nothing and announces nothing |
| DefinitionCache.GhDefinitionManager.Definition | Grasshopper-BricsCAD/GhDefinitionManager.cs:19-33 | null when the name does not resolve, nothing is cached or extraction fails; a null cached archive throws; otherwise a freshly made document holding the cached objects |
| DataExtension.GhDataExtension.constructor | Grasshopper-BricsCAD/GhDefinitionManager.cs:471-474 | no managers |
| DataExtension.GhDataExtension.GrasshopperDataManager | Grasshopper-BricsCAD/GhDefinitionManager.cs:504-518 | a null document gives null; a document with a manager gets it; otherwise null unless asked to create, in which case a new manager, pending every record of the drawing, is filed under the document; a failed drawing scan leaves the map unchanged |
| DataExtension.GhDataExtension.OnBcDocCreated | Grasshopper-BricsCAD/GhDefinitionManager.cs:545-548 | the created document gets a new manager in place of any it had; no other document's entry changes |
| DataExtension.GhDataExtension.OnBcDocDestroyed | Grasshopper-BricsCAD/GhDefinitionManager.cs:541-544 | the document's manager is dropped and nothing else |
| DataExtension.GhDataExtension.SettingsChanged | Grasshopper-BricsCAD/GhDefinitionManager.cs:524-539 | a colour or transparency setting sets the soft flag of every manager, the visual style or mesh quality the hard flag, anything else nothing; no other state of a manager changes |
| DataExtension.GhDataExtension.Update | Grasshopper-BricsCAD/GhDefinitionManager.cs:519-523 | both flags end cleared; on success nothing is pending and the screen is updated exactly when a scene was built for the active linked document; a failing manager stops before the drawing context, and a block preview that throws while the scene is built makes the update fail with that exception and leaves the screen alone |
| DataExtension.GhDataExtension.UpdateOlder | Grasshopper-BricsCAD/GhDefintionManager.cs:466-470 | a document without a manager is left alone and no manager is made; otherwise that manager processes and, on success, has nothing pending and its reactors enabled |
| DataSettings.MeshParams | Grasshopper-BricsCAD/GhDefinitionManager.cs:409-422 | fast exactly for 0, quality exactly for 2, the default otherwise |
| DataSettings.AlphaIsNearest | Grasshopper-BricsCAD/GhDefinitionManager.cs:423 | the converted alpha is within one half of `255 - 2.55 t` |
| DataSettings.AlphaOfPercentRange | Grasshopper-BricsCAD/GhDefinitionManager.cs:423-433 | 0 % gives 255 and 100 % gives 0; percentages in between convert without error, within 0..255, and a higher percentage never gives a higher alpha |
| DataSettings.DigitRun | Grasshopper-BricsCAD/GhDefinitionManager.cs:437 | the `\d+` run starting at a position stays within the text |
| DataSettings.CommaGroup | Grasshopper-BricsCAD/GhDefinitionManager.cs:437 | a group `(\d+),` ends at a ',' after at least one character |
| DataSettings.ParseShort | Grasshopper-BricsCAD/GhDefinitionManager.cs:444 | what `short.TryParse` accepts lies in the 16-bit range |
| DataSettings.HexPiece | Grasshopper-BricsCAD/GhDefinitionManager.cs:453-455 | a two-character piece parses as one or two hexadecimal digits, white space (U+0009 to U+000D, U+0020) being allowed before or after a single digit; two white characters or a non-digit fail; the value is below 256 |
| DataSettings.HexByte | Grasshopper-BricsCAD/GhDefinitionManager.cs:453-455 | a piece that runs past the end of the text fails as out of range; otherwise it succeeds exactly when the piece parses, with a value below 256 |
| DataSettings.FromArgb | Grasshopper-BricsCAD/GhDefinitionManager.cs:461-464 | succeeds exactly when every component is in 0..255, with those components |
| DataSettings.DecimalOfNatToString | Grasshopper-BricsCAD/GhDefinitionManager.cs:440-442 | the digits written for a number parse back as that number |
| DataSettings.DigitRunOf | Grasshopper-BricsCAD/GhDefinitionManager.cs:437 | a run of digits followed by a non-digit or the end is matched whole (greedy `\d+`) |
| DataSettings.NoRgbWithoutR | Grasshopper-BricsCAD/GhDefinitionManager.cs:437-438 | a text without the letter R never matches the pattern |
| DataSettings.CommaGroupOf | Grasshopper-BricsCAD/GhDefinitionManager.cs:437 | a run of digits followed by ',' is a group ending at that comma |
| DataSettings.MatchRgbParts | Grasshopper-BricsCAD/GhDefinitionManager.cs:437-443 | "RGB:" and three comma-separated runs of digits match at the start, with the runs as the three groups |
| DataSettings.MatchRgbText | Grasshopper-BricsCAD/GhDefinitionManager.cs:437-443 | an "RGB:r,g,b" text matches with the decimal digits of r, g and b as groups |
| DataSettings.RgbTextColour | Grasshopper-BricsCAD/GhDefinitionManager.cs:429-465 | an "RGB:r,g,b" text with components in 0..255 gives exactly that colour |
| DataSettings.HexByteTextValue | Grasshopper-BricsCAD/GhDefinitionManager.cs:453-455 | the two hexadecimal digits of a byte parse back as the byte |
| DataSettings.HashTextColour | Grasshopper-BricsCAD/GhDefinitionManager.cs:451-464 | a "#rrggbb" text gives exactly that colour |
| DataSettings.IndexTextColour | Grasshopper-BricsCAD/GhDefinitionManager.cs:444-450 | a colour index written in digits is looked up in the colour-index table, a throwing lookup propagating |
| DataSettings.UpdateFor | Grasshopper-BricsCAD/GhDefinitionManager.cs:524-539 | soft exactly for GhHostTransparency, GhTransparency and GhColor; hard exactly for GhVisualStyle and GhMeshQuality |
| DataManager.RememberedResolvesAlike | Grasshopper-BricsCAD/GhDefinitionManager.cs:72-95 | remembering a name as `FindFile` does changes how no name resolves |
| DataManager.UpdateOfResolution | Grasshopper-BricsCAD/GhDefinitionManager.cs:318-338 | what an update does depends on the remembered paths only through how names resolve |
| DataManager.Pending | Grasshopper-BricsCAD/GhDefinitionManager.cs:173-179 | the records redrawn include the pending ones, and every cached one on a hard update; without a hard update they are exactly the pending ones |
| DataManager.AttachedRecordsAre | Grasshopper-BricsCAD/GhDefinitionManager.cs:135-151 | the constructor's scan finds exactly the non-null records of the drawing's entities |
| DataManager.AfterLoadsGrows | Grasshopper-BricsCAD/GhDefinitionManager.cs:44-56 | the constructor's loads only add: every remembered name and cached archive stays, and no failed read is cached |
| DataManager.AfterLoadsRemembers | Grasshopper-BricsCAD/GhDefinitionManager.cs:149 | after the constructor's loads every loaded name that resolved is remembered |
| DataManager.BakeTargets | Grasshopper-BricsCAD/GhDefinitionManager.cs:298-302 | the components expired are exactly the unlocked bake components of the definition |
| DataManager.BakeStep | Grasshopper-BricsCAD/GhDefinitionManager.cs:288-304 | a record baked is logged once, under its own id, and only if it opens |
| DataManager.BakeLogStops | Grasshopper-BricsCAD/GhDefinitionManager.cs:285-306 | once the bake walk has thrown, the ids after that point change nothing |
| DataManager.BakeLogRecords | Grasshopper-BricsCAD/GhDefinitionManager.cs:285-306 | a successful bake walk logs at most one run per id of the list, each for a record of the list that opens |
| DataManager.ExpiredAllForBake | Grasshopper-BricsCAD/GhDefinitionManager.cs:298-302 | the expiry walk keeps the objects and their order, transforming each in place |
| DataManager.ExpiredForBakeOnly | Grasshopper-BricsCAD/GhDefinitionManager.cs:298-302 | exactly the unlocked bake components are expired; every other object is unchanged; identities are kept |
| DataManager.WithInputs | Grasshopper-BricsCAD/GhDefinitionManager.cs:262-268 | adding the inputs keeps the property table ordered |
| DataManager.WithInputsMap | Grasshopper-BricsCAD/GhDefinitionManager.cs:262-268 | adding the inputs never changes a stored property, and a name ends up stored exactly when it was stored before or some input of that name gives a non-empty property |
| DataManager.Paint | Grasshopper-BricsCAD/GhDefinitionManager.cs:188-189 | a recoloured drawable has the new colour and selected colour, its geometry and mode untouched |
| DataManager.SoftUpdateOf | Grasshopper-BricsCAD/GhDefinitionManager.cs:180-203 | the soft update succeeds exactly when the colour can be read and every cached record that is not pending opens |
| DataManager.SoftUpdateHosts | Grasshopper-BricsCAD/GhDefinitionManager.cs:190-198 | the soft update asks exactly the hosts of the cached records that are not pending to redraw |
| DataManager.ModifiedBlockRecords | Grasshopper-BricsCAD/GhDefinitionManager.cs:361-375 | a modified block queues the records of exactly those of its references that carry one |
| DataManager.GhDataManager.constructor | Grasshopper-BricsCAD/GhDefinitionManager.cs:103-112 | before the scan: an empty drawable cache, a new empty definition cache, nothing pending, both flags clear, no reactors |
| DataManager.GhDataManager.GetGhDrawable | Grasshopper-BricsCAD/GhDefinitionManager.cs:161-166 | the cached drawable exactly when the id is cached, else null |
| DataManager.GhDataManager.UpdateDrawable | Grasshopper-BricsCAD/GhDefinitionManager.cs:318-338 | an invisible or unresolved record leaves the cache alone; otherwise the definition is read afresh, run, and a new drawable of its preview in the colour and render mode of the settings replaces the cache entry under the record's id; exceptions as the definition cache, the colour or the preview raise them |
| DataManager.GhDataManager.RunAndDraw | Grasshopper-BricsCAD/GhDefinitionManager.cs:328-336 | a run definition is walked into a fresh drawable cached under the record's id; a colour or preview exception leaves the cache unchanged |
| DataManager.GhDataManager.Recolour | Grasshopper-BricsCAD/GhDefinitionManager.cs:186-200 | the walk gives the soft update's result; on success every cached drawable takes the colour; on failure some cached record that is not pending does not open |
| DataManager.GhDataManager.RecolourStep | Grasshopper-BricsCAD/GhDefinitionManager.cs:188-199 | one drawable recoloured; it fails exactly when the record is neither pending nor opens |
| DataManager.GhDataManager.UpdatePending | Grasshopper-BricsCAD/GhDefinitionManager.cs:219-233 | records that do not open are skipped; on success the cache holds what each pending record drew and the hosts asked are those of the pending records; a failure is the exception of some pending record |
| DataManager.GhDataManager.UpdateStep | Grasshopper-BricsCAD/GhDefinitionManager.cs:219-233 | one turn of that loop keeps its invariant, or fails with that record's exception |
| DataManager.GhDataManager.UpdateRecord | Grasshopper-BricsCAD/GhDefinitionManager.cs:227-231 | one opened record updated as `UpdateDrawable` prescribes, nothing else changed |
| DataManager.GhDataManager.Prepare | Grasshopper-BricsCAD/GhDefinitionManager.cs:173-203 | both flags end clear; a hard update queues every cached record; only when the hard flag is clear is the soft update made, recolouring the cache; otherwise no drawable changes |
| DataManager.GhDataManager.RunPending | Grasshopper-BricsCAD/GhDefinitionManager.cs:206-248 | the pending set ends empty, the reactors attached and the linked document restored however the loop ends; success exactly when no pending record throws, with the cache updated and the hosts of the pending records asked to redraw |
| DataManager.GhDataManager.Proccess | Grasshopper-BricsCAD/GhDefinitionManager.cs:171-249 | the hard flag wins and both flags end clear; a failing soft update leaves with the pending set kept; with nothing pending it returns; otherwise the pending set ends empty, the reactors attached, the linked document restored, and the result is success exactly when no pending record throws; on success nothing is pending |
| DataManager.GhDataManager.OnObjectModified | Grasshopper-BricsCAD/GhDefinitionManager.cs:350-376 | a modified record, an entity carrying one, or a block whose references carry some, queues exactly those records; nothing else changes |
| DataManager.GhDataManager.OnObjectErased | Grasshopper-BricsCAD/GhDefinitionManager.cs:377-393 | for a record or an entity carrying one, an erase drops the cache entry keyed by the erased object's own id and an un-erase queues that id; so an erased host entity leaves its record's entry in place |
| DataManager.GhDataManager.OnReloaded | Grasshopper-BricsCAD/GhDefinitionManager.cs:113-128 | every cached record that still opens is queued, whichever definition was reloaded |
| DataManager.GhDataManager.ReloadDefinition | Grasshopper-BricsCAD/GhDefinitionManager.cs:34-43 | a name that resolves has its archive re-read and every cached record that opens queued; an unresolved name changes nothing but what `FindFile` remembers |
| DataManager.GhDataManager.AddGrasshopperData | Grasshopper-BricsCAD/GhDefinitionManager.cs:250-271 | a null or already cached id is refused; otherwise the remembered paths, the archives, the result and the record's properties are those of `Registration`: a missing definition name throws, the definition is loaded from the drawing's directory and, when it can be read, each input of a primitive kind is added as value or type placeholder; the drawable cache is never touched |
| DataManager.ResolvedAgain | Grasshopper-BricsCAD/GhDefinitionManager.cs:255-256 | the path `Load` finds from the drawing's directory is the path that `Definition` then resolves without it |
| DataManager.RegistrationIdempotent | Grasshopper-BricsCAD/GhDefinitionManager.cs:255-268 | registering a second record of the same definition name finds the cache as the first left it and leaves it so, with the same result, and gives the second record the properties it would have got first |
| DataManager.RegistrationOnlyAdds | Grasshopper-BricsCAD/GhDefinitionManager.cs:255-268 | registration keeps the properties sorted and every stored property as it was; properties change only when the definition was read, and a new name is stored only then |
| DataManager.GhDataManager.Bake | Grasshopper-BricsCAD/GhDefinitionManager.cs:272-317 | the result is the bake walk over the list; however it ends, the reactors are attached and the linked document restored; the drawable cache, pending set and flags are unchanged |
| DataManager.GhDataManager.BakeAll | Grasshopper-BricsCAD/GhDefinitionManager.cs:285-306 | the walk's result is the bake log of the list |
| DataManager.GhDataManager.BakeOne | Grasshopper-BricsCAD/GhDefinitionManager.cs:288-305 | one id baked as `BakeStep` prescribes |
| DataManager.GhDataManager.LoadDrawing | Grasshopper-BricsCAD/GhDefinitionManager.cs:129-159 | the scan succeeds exactly when every attached record opens and names a definition; then every one is queued, their definitions loaded in order from the drawing's directory, and the reactors subscribed |
| DataManager.GhDataManager.LoadRecords | Grasshopper-BricsCAD/GhDefinitionManager.cs:139-151 | the loads in order, queuing each record, stopping at the first record that does not open or has no name |
| DataManager.GhDataManager.LoadOne | Grasshopper-BricsCAD/GhDefinitionManager.cs:147-151 | one record's definition loaded and the record queued |
| DataManager.NewManager | Grasshopper-BricsCAD/GhDefinitionManager.cs:109-160 | a manager is made exactly when the scan succeeds: fresh, for the document, with an empty drawable cache, every attached record pending, flags clear, reactors on, and the definitions loaded |
| DataManager.AddInputs | Grasshopper-BricsCAD/GhDefinitionManager.cs:262-268 | the record's table becomes the table with the inputs added in order |
| DataManager.AddInput | Grasshopper-BricsCAD/GhDefinitionManager.cs:264-267 | one input added as a typed placeholder or as its value |
| DataManager.ExpireBakeComponents | Grasshopper-BricsCAD/GhDefinitionManager.cs:298-302 | the definition's objects become the expired ones and the ids of the expired components are returned in object order |
| DataManager.ScanRecords | Grasshopper-BricsCAD/GhDefinitionManager.cs:135-146 | the record ids of the entities that carry one, in order |
| DataManager.NamesOf | Grasshopper-BricsCAD/GhDefinitionManager.cs:149 | the definition name of every record that opens, an empty name read as null |
| DataManagerOlder.PrepareOlder | Grasshopper-BricsCAD/GhDefintionManager.cs:159-183 | the reactors are detached first; a hard update queues every cached record, otherwise a soft update recolours the cache with the raw-alpha colour; no flag is cleared |
| DataManagerOlder.RunPendingOlder | Grasshopper-BricsCAD/GhDefintionManager.cs:185-209 | the pending records are updated as in the newer version; the linked document is restored only when no exception leaves the loop |
| DataManagerOlder.Proccess | Grasshopper-BricsCAD/GhDefintionManager.cs:157-215 | the reactors are detached first; an exception from the soft update or the loop leaves them detached, the flags raised and the pending set kept (after the loop, with the drawing still linked); otherwise the pending set is emptied, both flags cleared only at the end, and the reactors attached again |
| DataManagerOlder.UpdateAndSettle | Grasshopper-BricsCAD/GhDefintionManager.cs:185-214 | the update loop followed, when nothing throws, by the end of the method |
| DataManagerOlder.Settle | Grasshopper-BricsCAD/GhDefintionManager.cs:211-214 | the pending set empty, both flags clear, the reactors attached |
| DataManagerOlder.Bake | Grasshopper-BricsCAD/GhDefintionManager.cs:237-268 | the same bake walk as the newer version; an exception leaves the reactors detached and the drawing as the linked document |
| DrawingContext.ExpiringCommands | Grasshopper-BricsCAD/GhDrawingContext.cs:114-115 | a command is kept exactly when it was recorded and can expire something (`BIMSPATIALLOCATIONS`), and none is kept twice |
| DrawingContext.Expired | Grasshopper-BricsCAD/GhDrawingContext.cs:139-147 | expiring an object keeps its id and its selection |
| DrawingContext.DrainOnlyExpires | Grasshopper-BricsCAD/GhDrawingContext.cs:127-150 | the drain leaves each object as it was or expires it, and never touches a remote or blank parameter or an object that is not the plug-in's |
| DrawingContext.ObjectStaleMonotone | Grasshopper-BricsCAD/GhDrawingContext.cs:129-150 | with more changes recorded, an object that was stale stays stale |
| DrawingContext.ExpireAllBc | Grasshopper-BricsCAD/GhDrawingContext.cs:161-179 | `ExpireGH` expires every plug-in parameter and component whatever its state, and changes nothing else |
| DrawingContext.DrainIdempotent | Grasshopper-BricsCAD/GhDrawingContext.cs:120-155 | draining the same changes a second time changes nothing and finds the same objects stale |
| DrawingContext.ExpireIdempotent | Grasshopper-BricsCAD/GhDrawingContext.cs:161-179 | `ExpireGH` a second time changes nothing more, and leaves the same plug-in objects |
| DrawingContext.ComponentNeedsToBeExpired | Grasshopper-BricsCAD/GhDrawingContext.cs:143-150 | the dispatched `NeedsToBeExpired` of a plug-in component answers exactly whether it is stale |
| DrawingContext.DrainedObjects | Grasshopper-BricsCAD/GhDrawingContext.cs:127-151 | the drain keeps the number and order of a definition's objects, object by object |
| DrawingContext.ExpiredObjects | Grasshopper-BricsCAD/GhDrawingContext.cs:166-175 | `ExpireGH` keeps the number and order of a definition's objects, object by object |
| DrawingContext.DrainObjects | Grasshopper-BricsCAD/GhDrawingContext.cs:126-151 | the loop over a definition's objects leaves the drained objects, and reports an expiry exactly when some object was stale |
| DrawingContext.DrainDefinition | Grasshopper-BricsCAD/GhDrawingContext.cs:122-154 | one definition is drained, and asked for one new solution exactly when it may solve now and something in it was stale |
| DrawingContext.ExpireDefinition | Grasshopper-BricsCAD/GhDrawingContext.cs:165-177 | one definition has its plug-in objects expired, and is asked for one new solution exactly when it holds one |
| DrawingContext.GhDrawingContext.constructor | Grasshopper-BricsCAD/GhDrawingContext.cs:12-19 | the buffers start empty, with no preview, no linked document and no redraw asked for |
| DrawingContext.GhDrawingContext.OnObjectModified | Grasshopper-BricsCAD/GhDrawingContext.cs:70-75 | a modified entity's handle is appended to the modified buffer; any other object changes nothing |
| DrawingContext.GhDrawingContext.OnObjectErased | Grasshopper-BricsCAD/GhDrawingContext.cs:76-80 | an erased object's handle goes to the erased buffer, an unerased one's to the appended buffer |
| DrawingContext.GhDrawingContext.OnObjectAppended | Grasshopper-BricsCAD/GhDrawingContext.cs:81-87 | an appended entity's or material's handle is recorded; any other object changes nothing |
| DrawingContext.GhDrawingContext.OnCommandEnded | Grasshopper-BricsCAD/GhDrawingContext.cs:88 | every finished command's global name is recorded |
| DrawingContext.GhDrawingContext.OnPreviewEvent | Grasshopper-BricsCAD/Visualization/GrasshopperPreview.cs:81-140 | the preview's event handlers only ask for a redraw |
| DrawingContext.GhDrawingContext.OnDocumentChanged | Grasshopper-BricsCAD/GhDrawingContext.cs:112-160 | with nothing recorded nothing changes; otherwise every definition is drained with the recorded changes, the commands reduced to the expiring ones, and all four buffers are emptied |
| DrawingContext.GhDrawingContext.DrainAll | Grasshopper-BricsCAD/GhDrawingContext.cs:120-155 | every open definition is drained, and only the active, enabled, idle one with a stale object asks for a new solution |
| DrawingContext.GhDrawingContext.ExpireGH | Grasshopper-BricsCAD/GhDrawingContext.cs:161-179 | every open definition has its plug-in objects expired and asks for a new solution when it holds one |
| DrawingContext.GhDrawingContext.NewPreview | Grasshopper-BricsCAD/GhDrawingContext.cs:65-100 | a new preview starts with no drawables and no selection, on the active canvas's definition, and asks for a redraw exactly when there is one |
| DrawingContext.GhDrawingContext.RelinkToDoc | Grasshopper-BricsCAD/GhDrawingContext.cs:44-68 | relinking the linked document changes nothing; another document becomes linked with a new preview, every plug-in object is expired and a redraw is asked for; the buffers are kept |
| DrawingContext.GhDrawingContext.OnDocumentBecameCurrent | Grasshopper-BricsCAD/GhDrawingContext.cs:89-101 | with no linked document nothing changes; another document made current drops the preview; the linked one made current gets a new preview |
| DrawingContext.GhDrawingContext.OnBcDocCloseWillStart | Grasshopper-BricsCAD/GhDrawingContext.cs:102-110 | closing the linked drawing drops the preview and the link, and expires every plug-in object |
| DrawingContext.GhDrawingContext.Process | Grasshopper-BricsCAD/GhDrawingContext.cs:20-34 | after the drain, a preview rebuilds its scene exactly when a redraw was asked for or its definition or selection changed, clears the flag, and updates the screen exactly when the scene did not throw and the linked document is the active one |
| GrasshopperPreviews.ReorderedSelectionUnchanged | Grasshopper-BricsCAD/Visualization/GrasshopperPreview.cs:72 | the same objects selected in another order are not a selection change |
| GrasshopperPreviews.SameSelectionUnchanged | Grasshopper-BricsCAD/Visualization/GrasshopperPreview.cs:72 | a selection compared with itself is not a change |
| GrasshopperPreviews.Without | Grasshopper-BricsCAD/Visualization/GrasshopperPreview.cs:155 | removing a parameter's id keeps every other id held exactly as before and adds none |
| GrasshopperPreviews.WithoutRemoves | Grasshopper-BricsCAD/Visualization/GrasshopperPreview.cs:155 | with distinct ids, after the removal the id is no longer held, and the ids stay distinct |
| GrasshopperPreviews.CurrentParam | Grasshopper-BricsCAD/Visualization/GrasshopperPreview.cs:19 | the set holds live parameter objects: the one with the id is found among the definition's parameters, or none is when the definition no longer has it |
| GrasshopperPreviews.Calls | Grasshopper-BricsCAD/Visualization/GrasshopperPreview.cs:145-162 | one highlight call per BricsCAD reference, in order, with the same on/off flag |
| GrasshopperPreviews.HighlightTracksSelection | Grasshopper-BricsCAD/Visualization/GrasshopperPreview.cs:141-156 | after `HighlightBcData(p)` the set holds `p` exactly when `p` is selected, holds the others as before, and keeps ids distinct |
| GrasshopperPreviews.HighlightIdempotent | Grasshopper-BricsCAD/Visualization/GrasshopperPreview.cs:141-156 | a second `HighlightBcData` of the same parameter changes nothing and makes no call |
| GrasshopperPreviews.UnhighlightUndoes | Grasshopper-BricsCAD/Visualization/GrasshopperPreview.cs:141-165 | every reference that `HighlightBcData` highlights is switched off by the next `UnhighlightBcData`, provided the parameter still has the data it was highlighted with |
| GrasshopperPreviews.UnhighlightLogCalls | Grasshopper-BricsCAD/Visualization/GrasshopperPreview.cs:157-165 | `UnhighlightBcData` only switches highlights off, and does so for every reference that every parameter in the set has at that moment |
| GrasshopperPreviews.StaleHighlightAsWritten | Grasshopper-BricsCAD/Visualization/GrasshopperPreview.cs:141-165 | as written, a parameter highlighted with one reference and solved again while selected keeps it highlighted: the later un-highlight switches off only the new reference |
| GrasshopperPreviews.RememberedOn | Grasshopper-BricsCAD/Visualization/GrasshopperPreview.cs:141-156 | the corrected bookkeeping records the references switched on for a parameter that joins the set, forgets a parameter that leaves it, and keeps every other entry |
| GrasshopperPreviews.RememberedTracksHighlight | Grasshopper-BricsCAD/Visualization/GrasshopperPreview.cs:141-156 | the ids remembered are the ids in the highlight set after `HighlightBcData`, when they were before |
| GrasshopperPreviews.UnhighlightLogCorrected | Grasshopper-BricsCAD/Visualization/GrasshopperPreview.cs:157-165 | the corrected `UnhighlightBcData` only switches highlights off, and switches off every reference remembered for a held parameter |
| GrasshopperPreviews.CorrectedUnhighlightUndoes | Grasshopper-BricsCAD/Visualization/GrasshopperPreview.cs:141-165 | the corrected bookkeeping, remembering the references switched on, switches all of them off again even after the parameter was solved again |
| GrasshopperPreviews.BcParamsOf | Grasshopper-BricsCAD/Visualization/GrasshopperPreview.cs:118-122 | the parameters highlighted are exactly the not-drawable parameters whose category is `BricsCAD` |
| GrasshopperPreviews.HighlightAllTracks | Grasshopper-BricsCAD/Visualization/GrasshopperPreview.cs:118-156 | highlighting a list of parameters keeps ids distinct, leaves ids not in the list as they were, and holds the last one exactly when it is selected |
| GrasshopperPreviews.GrasshopperPreview.constructor | Grasshopper-BricsCAD/Visualization/GrasshopperPreview.cs:16-25 | a new preview has no active definition, no selection, no highlights and an empty drawable |
| GrasshopperPreviews.GrasshopperPreview.SelectionPreviewChanged | Grasshopper-BricsCAD/Visualization/GrasshopperPreview.cs:67-79 | true exactly when there is an active definition whose selection changed, which then becomes the last selection seen |
| GrasshopperPreviews.GrasshopperPreview.HighlightBcData | Grasshopper-BricsCAD/Visualization/GrasshopperPreview.cs:141-156 | the set and the calls are those of the highlight specification, and the ids stay distinct |
| GrasshopperPreviews.GrasshopperPreview.UnhighlightBcData | Grasshopper-BricsCAD/Visualization/GrasshopperPreview.cs:157-165 | every reference that each parameter in the set has now, read from the active definition, is switched off, and the set is emptied |
| GrasshopperPreviews.GrasshopperPreview.Init | Grasshopper-BricsCAD/Visualization/GrasshopperPreview.cs:31-66 | the active canvas's definition becomes the active one; switching definition switches off the current references of the old definition's highlighted parameters and empties the set; a redraw is asked for exactly when the definition switched or the selection changed; the result says whether there is an active definition |
| GrasshopperPreviews.GrasshopperPreview.HighlightEach | Grasshopper-BricsCAD/Visualization/GrasshopperPreview.cs:118-122 | `onBcObject` on each parameter in turn gives the set and the calls of the specification |
| GrasshopperPreviews.GrasshopperPreview.BuildScene | Grasshopper-BricsCAD/Visualization/GrasshopperPreview.cs:102-135 | the drawable is cleared; with no active definition it stays empty; with the preview disabled or the editor hidden the current references of the highlighted parameters are switched off and the set emptied; otherwise it takes the colours, the mode and the scanned geometry, highlights the BricsCAD parameters, and hooks the extracted objects |
| PreviewScans.ExtractTree | Grasshopper-BricsCAD/Visualization/GrasshopperPreview.cs:166-176 | the loop over a parameter's volatile data appends the geometry of every item, in order |
| PreviewScans.ExtractObject | Grasshopper-BricsCAD/Visualization/GrasshopperPreview.cs:278-285 | an object's geometry is that of its volatile data for a parameter and of its outputs for a component |
| PreviewScans.ExtractOutputs | Grasshopper-BricsCAD/Visualization/GrasshopperPreview.cs:281-282 | a component's geometry is that of its output parameters, one after another |
| PreviewScans.Tagged | Grasshopper-BricsCAD/Visualization/GrasshopperPreview.cs:362 | each block preview of a component carries the component's selection flag |
| PreviewScans.ScannedStops | Grasshopper-BricsCAD/Visualization/GrasshopperPreview.cs:259-303 | once a block preview has thrown, the rest of the walk changes nothing |
| PreviewScans.AddAll | Grasshopper-BricsCAD/Visualization/GrasshopperPreview.cs:289 | the geometry is appended to the selected or the unselected list by the flag, and nothing else of the drawable changes |
| PreviewScans.VisitObject | Grasshopper-BricsCAD/Visualization/GrasshopperPreview.cs:265-302 | one object of the walk, done on the drawable, gives the state the walk specification gives |
| PreviewScans.GetPreview | Grasshopper-BricsCAD/Visualization/GrasshopperPreview.cs:259-303 | the walk over a definition's objects fills the drawable as the walk specification says, and changes nothing else of it |
| PreviewScans.SelectedFilterDrawsSelected | Grasshopper-BricsCAD/Visualization/GrasshopperPreview.cs:270-289 | under the Selected filter nothing is added to the unselected list |
| PreviewScans.NotDrawableObjects | Grasshopper-BricsCAD/Visualization/GrasshopperPreview.cs:265-301 | the objects reported as not drawable are active, unlocked, pass the filter and are not preview objects; with no exception, every such object is reported |
| PreviewScans.ExtractedObjects | Grasshopper-BricsCAD/Visualization/GrasshopperPreview.cs:265-291 | an object reported as extracted is unlocked, visible, preview capable, passes the filter and has some geometry |
| BlockPreviews.Clamp | Grasshopper-BricsCAD/Visualization/GrasshopperPreview.cs:322-351 | `Math.Min(i, count - 1)` is a valid index of a non-empty list, `i` itself when in range and the last index beyond it |
| BlockPreviews.ListAt | Grasshopper-BricsCAD/Visualization/GrasshopperPreview.cs:322-326 | an empty input gives no items; otherwise the branch at the clamped index |
| BlockPreviews.RowCells | Grasshopper-BricsCAD/Visualization/GrasshopperPreview.cs:328-363 | branch `i` has one position per item of its longest list, each as the position rule says |
| BlockPreviews.RunStops | Grasshopper-BricsCAD/Visualization/GrasshopperPreview.cs:333-343 | once a position has thrown, the later positions change nothing |
| BlockPreviews.RowsPrefix | Grasshopper-BricsCAD/Visualization/GrasshopperPreview.cs:320-364 | the positions of fewer branches are a prefix of those of more branches |
| BlockPreviews.StopsInRow | Grasshopper-BricsCAD/Visualization/GrasshopperPreview.cs:320-364 | an exception inside a branch is the outcome of the whole preview |
| BlockPreviews.BlockPreview | Grasshopper-BricsCAD/Visualization/GrasshopperPreview.cs:305-310 | a component without its five inputs throws; an empty handle input previews nothing |
| BlockPreviews.PreviewRow | Grasshopper-BricsCAD/Visualization/GrasshopperPreview.cs:331-363 | the loop over one branch takes its positions in order and stops only at an exception |
| BlockPreviews.PreviewCell | Grasshopper-BricsCAD/Visualization/GrasshopperPreview.cs:333-362 | one position adds its block, counts its warning or records its exception |
| BlockPreviews.GetBlockRefPreview | Grasshopper-BricsCAD/Visualization/GrasshopperPreview.cs:305-365 | the nested loops give exactly the outcome of the preview specification |
| BlockPreviews.RunBlocks | Grasshopper-BricsCAD/Visualization/GrasshopperPreview.cs:331-363 | positions that all give blocks give exactly those blocks and no warning |
| BlockPreviews.OneHandleManyPoints | Grasshopper-BricsCAD/Visualization/GrasshopperPreview.cs:316-363 | longest-list matching: one block handle against n insertion points gives n blocks of that definition at those points, in order, unrotated and unscaled |
| CompoundDrawables.SubEntityTraits.constructor | Grasshopper-BricsCAD/Visualization/CompoundDrawable.cs:19-22 | the traits hold the colour, transparency, visual style and selection flags given |
| CompoundDrawables.Painted | Grasshopper-BricsCAD/Visualization/CompoundDrawable.cs:35-46 | one draw per piece of a list, in order, all in the one colour with its alpha as the transparency |
| CompoundDrawables.Failures | Grasshopper-BricsCAD/Visualization/CompoundDrawable.cs:36-38 | the count of failed world draws is at most the number of pieces |
| CompoundDrawables.NoFailures | Grasshopper-BricsCAD/Visualization/CompoundDrawable.cs:36-39 | no failures exactly when every world draw succeeds |
| CompoundDrawables.SetColor | Grasshopper-BricsCAD/Visualization/CompoundDrawable.cs:27-32 | the traits take the colour without its alpha and the alpha as transparency, and the result is true |
| CompoundDrawables.WorldDrawAll | Grasshopper-BricsCAD/Visualization/CompoundDrawable.cs:36-38 | the loop draws every piece in order with the traits in force and counts the failures |
| CompoundDrawables.ViewportDrawAll | Grasshopper-BricsCAD/Visualization/CompoundDrawable.cs:44-46 | the loop draws every piece in order with the traits in force |
| CompoundDrawables.CompoundDrawable.constructor | Grasshopper-BricsCAD/Visualization/CompoundDrawable.cs:10-14 | a new drawable has two empty lists and the mode and colours given |
| CompoundDrawables.CompoundDrawable.AddDrawable | Grasshopper-BricsCAD/Visualization/CompoundDrawable.cs:51-54 | the piece goes at the end of the selected list when selected and of the other list otherwise; the other list is unchanged |
| CompoundDrawables.CompoundDrawable.Clear | Grasshopper-BricsCAD/Visualization/CompoundDrawable.cs:55-59 | both lists are emptied and nothing else changes |
| CompoundDrawables.CompoundDrawable.SubSetAttributes | Grasshopper-BricsCAD/Visualization/CompoundDrawable.cs:15-26 | entity traits get the shaded or wireframe visual style by the mode and become unselectable; the drawable always reports itself an entity |
| CompoundDrawables.CompoundDrawable.SubWorldDraw | Grasshopper-BricsCAD/Visualization/CompoundDrawable.cs:33-40 | the unselected pieces are drawn in the preview colour, then the selected ones in the selection colour; the result is true exactly when no draw failed |
| CompoundDrawables.CompoundDrawable.SubViewportDraw | Grasshopper-BricsCAD/Visualization/CompoundDrawable.cs:41-47 | the unselected pieces in the preview colour, then the selected ones in the selection colour, each in insertion order |
| CompoundDrawables.CompoundDrawable.SubViewportDrawLogicalFlags | Grasshopper-BricsCAD/Visualization/CompoundDrawable.cs:48 | no viewport-dependent flags |
| CompoundDrawables.CompoundDrawable.IsPersistent | Grasshopper-BricsCAD/Visualization/CompoundDrawable.cs:49 | the preview is never a database-resident drawable |
| CompoundDrawables.PaintedMembers | Grasshopper-BricsCAD/Visualization/CompoundDrawable.cs:33-59 | every piece added and not cleared is drawn in its list's colour, and nothing else is drawn |
| GhDataOverrule.TraitsState.constructor | Grasshopper-BricsCAD/Visualization/GhDataOverrule.cs:15-22 | the snapshot holds the traits' colour, transparency, visual style and selection flags as they are now |
| GhDataOverrule.TraitsState.Dispose | Grasshopper-BricsCAD/Visualization/GhDataOverrule.cs:23-29 | exactly the four captured values are written back |
| GhDataOverrule.ByteOf | Grasshopper-BricsCAD/Visualization/GhDataOverrule.cs:61 | `(byte)` of a short keeps its low eight bits: a value in range is unchanged, any other is congruent modulo 256 |
| GhDataOverrule.WorldDraw | Grasshopper-BricsCAD/Visualization/GhDataOverrule.cs:33-66 | without a live cached preview only the base draw happens; an id that does not open as a record throws; a visible record's preview is drawn with the traits restored afterwards and the host transparency applied; the result is always the base draw's |
| GeometryParams.TreeRefs | Grasshopper-BricsCAD/GH/GeometryParam.cs:106-112 | the references of a tree are exactly its BricsCAD geometry items |
| GeometryParams.NeedsToBeExpired | Grasshopper-BricsCAD/GH/GeometryParam.cs:101-114 | true exactly when a volatile reference was modified or erased, or something was added and a persistent reference was among it; finished commands play no part |
| GeometryParams.StaleNeedsReferences | Grasshopper-BricsCAD/GH/GeometryParam.cs:101-114 | a parameter holding no references never needs expiring, whatever changed |
| GeometryParams.FindUnique | Grasshopper-BricsCAD/GH/GeometryParam.cs:98 | the branch found for a path is the first one with that path |
| GeometryParams.FindAfterAdd | Grasshopper-BricsCAD/GH/GeometryParam.cs:98 | adding data to a path keeps its branch where it was, or puts a new branch last |
| GeometryParams.AddAllPlaces | Grasshopper-BricsCAD/GH/GeometryParam.cs:93-100 | the i-th item goes to index i of branch {0}, the items of that branch beyond the new ones are kept, every other branch is left where and as it was, and at most that one branch is added |
| GeometryParams.CreatedAll | Grasshopper-BricsCAD/GH/GeometryParam.cs:52 | one reference per selected subentity, in selection order |
| GeometryParams.InitBy | Grasshopper-BricsCAD/GH/GeometryParam.cs:93-100 | the loop leaves the volatile data with the references placed as that specification says, and nothing else of the parameter changes |
| GeometryParams.CollectedItem | Grasshopper-BricsCAD/GH/GeometryParam.cs:125-131 | a reference kept after collection is loaded and valid |
| GeometryParams.CollectedItems | Grasshopper-BricsCAD/GH/GeometryParam.cs:123-132 | collection keeps the number and order of a branch's items, item by item |
| GeometryParams.CollectedTree | Grasshopper-BricsCAD/GH/GeometryParam.cs:121-133 | collection keeps every branch and its path, branch by branch |
| GeometryParams.OnVolatileDataCollected | Grasshopper-BricsCAD/GH/GeometryParam.cs:117-136 | with sources nothing changes; without, every item is replaced by its collected form and the warnings are added in order |
| GeometryParams.CollectTree | Grasshopper-BricsCAD/GH/GeometryParam.cs:121-133 | the loop over the branches gives the collected tree and its warnings |
| GeometryParams.CollectBranch | Grasshopper-BricsCAD/GH/GeometryParam.cs:123-132 | the loop over one branch's items gives the collected items and their warnings |
| GeometryParams.CollectOne | Grasshopper-BricsCAD/GH/GeometryParam.cs:125-131 | one item is loaded, or replaced with null with a warning naming its type or "Element" |
| GeometryParams.WarningPerNull | Grasshopper-BricsCAD/GH/GeometryParam.cs:126-130 | a collected branch has exactly one warning per null item |
| GeometryParams.CollectIdempotent | Grasshopper-BricsCAD/GH/GeometryParam.cs:117-136 | collecting a collected tree again changes nothing, whatever document it is loaded from |
| GeometryParams.ZoomArgsEmpty | Grasshopper-BricsCAD/GH/GeometryParam.cs:84-86 | the ZoomTo arguments are empty exactly when no reference belongs to the linked document |
| GeometryParams.ZoomArgsAppend | Grasshopper-BricsCAD/GH/GeometryParam.cs:86 | the arguments of two lists of references are the arguments of each, concatenated |
| GeometryParams.ZoomArgsOne | Grasshopper-BricsCAD/GH/GeometryParam.cs:85-86 | a reference of the linked document adds its `"H" "<handle>"` group; one of another document adds nothing |
| GeometryParams.ZoomCommand | Grasshopper-BricsCAD/GH/GeometryParam.cs:79-89 | a command is sent exactly when the linked document is active and some reference belongs to it |
| GeometryParams.SelectionPlural | Grasshopper-BricsCAD/GH/GeometryParam.cs:45-54 | a cancelled selection cancels and keeps the values; otherwise the values become one reference per selected subentity |
| GeometryParams.SelectionSingular | Grasshopper-BricsCAD/GH/GeometryParam.cs:56-65 | no pick cancels and keeps the value; a pick succeeds with its reference |
| GeometryParams.PromptSingular | Grasshopper-BricsCAD/GH/GeometryParam.cs:227-273 | the user's answer gives success and replaces the value; no answer cancels and keeps it; accept is never returned |
| GeometryParams.SingularOutcomes | Grasshopper-BricsCAD/GH/GeometryParam.cs:227-273 | successive calls never accept, and succeed with the answer exactly when one is given |
| GeometryParams.OutcomeValues | Grasshopper-BricsCAD/GH/GeometryParam.cs:223-260 | the values of the outcomes, in order |
| GeometryParams.AcceptedPrefix | Grasshopper-BricsCAD/GH/GeometryParam.cs:219-256 | the loop adds the values of the leading outcomes that continue it, and stops at the first that does not |
| GeometryParams.PromptPlural | Grasshopper-BricsCAD/GH/GeometryParam.cs:216-263 | the loop appends the continuing values, creating the list when it is null; it cancels exactly when the list is still null, and never accepts |
| GeometryParams.PromptPluralAsWritten | Grasshopper-BricsCAD/GH/GeometryParam.cs:219-256 | as written, the loop adds nothing whatever the user picks, and a null list cancels even after a successful pick |
| GeometryParams.Picks | Grasshopper-BricsCAD/GH/GeometryParam.cs:229-272 | the picks made before the first cancel are all values |
| GeometryParams.PromptPluralCorrected | Grasshopper-BricsCAD/GH/GeometryParam.cs:216-263 | looping while the result is success collects every pick made before the first cancel |
| DocumentElements.NeedsToBeExpired | Grasshopper-BricsCAD/GH/Components/DocumentElements.cs:18-29 | anything erased or added expires the component; otherwise it expires exactly when one of its plug-in output parameters is stale |
| DocumentElements.ConcatMembers | Grasshopper-BricsCAD/GH/Components/DocumentElements.cs:50-53 | an id is among the candidates exactly when it is classified as one of the element types |
| DocumentElements.PerType | Grasshopper-BricsCAD/GH/Components/DocumentElements.cs:51-53 | one classification per element type, in the order the types were given |
| DocumentElements.Candidates | Grasshopper-BricsCAD/GH/Components/DocumentElements.cs:47-56 | with element types, the elements classified as each type in turn, repeats kept; without, every classified element |
| DocumentElements.Located | Grasshopper-BricsCAD/GH/Components/DocumentElements.cs:58-66 | the elements kept are exactly those assigned one of the locations, in their order |
| DocumentElements.FilterStep | Grasshopper-BricsCAD/GH/Components/DocumentElements.cs:60-65 | one step of the backward loop keeps an element in one of the locations and removes any other |
| DocumentElements.FilterByLocation | Grasshopper-BricsCAD/GH/Components/DocumentElements.cs:58-66 | with no locations nothing is removed; otherwise the backward removal loop leaves exactly the located elements, in order |
| DocumentElements.Elements | Grasshopper-BricsCAD/GH/Components/DocumentElements.cs:68-70 | one unloaded entity reference per element, in order, referring to it by its handle in the linked drawing |
| DocumentElements.SolveInstance | Grasshopper-BricsCAD/GH/Components/DocumentElements.cs:39-72 | the output is one entity reference per candidate element that passes the location filter, in order |
| SpatialLocation.NeedsToBeExpired | Grasshopper-BricsCAD/GH/Components/SpatialLocation.cs:97-135 | the building picker and the stories component are stale exactly when `BIMSPATIALLOCATIONS` finished |
| SpatialLocation.NeedsToBeExpiredIgnoresHandles | Grasshopper-BricsCAD/GH/Components/SpatialLocation.cs:97-135 | which handles changed never matters to them |
| SpatialLocation.BuildingEntries | Grasshopper-BricsCAD/GH/Components/SpatialLocation.cs:80-82 | one entry per building: its name, and its quoted name as the expression |
| SpatialLocation.RefreshBuildings | Grasshopper-BricsCAD/GH/Components/SpatialLocation.cs:72-87 | the list is cleared; with a linked database it gets one item per building, in order, selected exactly when its expression was selected before |
| SpatialLocation.RefreshBuildingSelected | Grasshopper-BricsCAD/GH/Components/SpatialLocation.cs:74-83 | a building's item is selected after a refresh exactly when an item with its quoted name was selected before |
| SpatialLocation.TypeEntries | Grasshopper-BricsCAD/GH/Components/SpatialLocation.cs:48-50 | one entry per BIM type: its name, and its integer value in decimal as the expression |
| SpatialLocation.BuildTypeList | Grasshopper-BricsCAD/GH/Components/SpatialLocation.cs:46-53 | the list is rebuilt with one item per BIM type, keeping the selection by expression |
| SpatialLocation.StoriesOutput | Grasshopper-BricsCAD/GH/Components/SpatialLocation.cs:121-131 | stories are output exactly when a building was given and it has at least one, and they are its stories |
| RenderMaterial.Distinct | Grasshopper-BricsCAD/GH/Components/RenderMaterial.cs:33-43 | the names kept are exactly the names given, none twice |
| RenderMaterial.DistinctOfDistinct | Grasshopper-BricsCAD/GH/Components/RenderMaterial.cs:33-43 | names without repetition are all kept, in order |
| RenderMaterial.RefreshStep | Grasshopper-BricsCAD/GH/Components/RenderMaterial.cs:37-43 | one more material name adds its item only when the name has not been seen |
| RenderMaterial.RefreshList | Grasshopper-BricsCAD/GH/Components/RenderMaterial.cs:29-45 | the list is rebuilt with one item per material name not seen before, in order, keeping the selection by expression |
| RenderMaterial.RefreshListItems | Grasshopper-BricsCAD/GH/Components/RenderMaterial.cs:29-45 | the picker has one item per distinct material name, never two with the same name |
| RenderMaterial.NeedsToBeExpired | Grasshopper-BricsCAD/GH/Components/RenderMaterial.cs:52-65 | stale exactly when an added handle resolves to a material; nothing added means not stale |
| BcParams.NeedsToBeExpired | Grasshopper-BricsCAD/GH/GeometryParam.cs:25-31 | each kind of plug-in parameter answers `NeedsToBeExpired` exactly as its own staleness rule says |
| BcParams.StaleMonotone | Grasshopper-BricsCAD/GH/GeometryParam.cs:101-114 | with more changes recorded, a stale plug-in parameter stays stale |
| ParameterTypes.ChunkString | Grasshopper-BricsCAD/GH/ParameterTypes.cs:100 | a string item is read exactly when one of that name is there, and it is that item |
| ParameterTypes.ChunkInt64 | Grasshopper-BricsCAD/GH/ParameterTypes.cs:101 | an Int64 item is read exactly when one of that name is there, and it is that item |
| ParameterTypes.ChunkByte | Grasshopper-BricsCAD/GH/ParameterTypes.cs:102 | a byte item is read exactly when one of that name is there, and it is that item |
| ParameterTypes.ChunkInt32 | Grasshopper-BricsCAD/GH/ParameterTypes.cs:103 | an Int32 item is read exactly when one of that name is there, and it is that item |
| ParameterTypes.GhChunk.Set | Grasshopper-BricsCAD/GH/ParameterTypes.cs:110-113 | setting an item replaces the item of that name and no other |
| ParameterTypes.ReferenceItemsUpdate | Grasshopper-BricsCAD/GH/ParameterTypes.cs:110-113 | the four items written together are the four set one after another |
| ParameterTypes.ReferenceItemsRead | Grasshopper-BricsCAD/GH/ParameterTypes.cs:98-116 | the four items written read back as the fields they were written from |
| ParameterTypes.ReferenceOf | Grasshopper-BricsCAD/GH/ParameterTypes.cs:119-125 | a new reference keeps the first id's handle, the subentity type and index, and the document name without extension; its value is not loaded |
| ParameterTypes.Loaded | Grasshopper-BricsCAD/GH/ParameterTypes.cs:47-62 | a loaded value stays; otherwise loading succeeds exactly when the document is given, has the stored name and resolves the stored handle, and the value becomes that id with the stored subentity; only the value ever changes, and success means the value is loaded |
| ParameterTypes.LoadedIdempotent | Grasshopper-BricsCAD/GH/ParameterTypes.cs:47-62 | a loaded reference loads again, unchanged, from any document |
| ParameterTypes.GeometricGoo.constructor | Grasshopper-BricsCAD/GH/ParameterTypes.cs:118 | a new goo is a null link with no reference |
| ParameterTypes.GeometricGoo.FromReference | Grasshopper-BricsCAD/GH/ParameterTypes.cs:119-125 | the goo stores the reference as `ReferenceOf` says, and its value stays the null link |
| ParameterTypes.GeometricGoo.LoadGeometry | Grasshopper-BricsCAD/GH/ParameterTypes.cs:47-62 | the result and the new state are those of the loading specification |
| ParameterTypes.GeometricGoo.LoadFromLinked | Grasshopper-BricsCAD/GH/ParameterTypes.cs:43 | a valid goo stays as it is; the result says whether the goo is valid afterwards; the stored reference never changes |
| ParameterTypes.GeometricGoo.ToString | Grasshopper-BricsCAD/GH/ParameterTypes.cs:86-97 | the word for the subentity type, a space, and the text of the path |
| ParameterTypes.GeometricGoo.ToStringAsWritten | Grasshopper-BricsCAD/GH/ParameterTypes.cs:86-97 | as written, the text throws exactly when the value is the null link (what both constructors leave until the geometry is loaded); otherwise it is the text of `ToString` |
| ParameterTypes.KindWord | Grasshopper-BricsCAD/GH/ParameterTypes.cs:89-95 | the word is never empty |
| ParameterTypes.GeometricGoo.Write | Grasshopper-BricsCAD/GH/ParameterTypes.cs:106-116 | the four reference items are written exactly when the document name is non-empty and the handle is not 0; the result is always true |
| ParameterTypes.GeometricGoo.Read | Grasshopper-BricsCAD/GH/ParameterTypes.cs:98-105 | the four fields are read in order; a missing item throws and leaves the fields read before it assigned; the value is not touched |
| ParameterTypes.ReferenceRoundTrip | Grasshopper-BricsCAD/GH/ParameterTypes.cs:98-116 | a reference written under the guard reads back as the same document name, handle, subentity type and index |
| ParameterTypes.EnumGoo.ElementType | Grasshopper-BricsCAD/GH/ParameterTypes.cs:286-289 | a new element type is `NoBuildingElement`, stored under "ElementType" |
| ParameterTypes.EnumGoo.PropCategory | Grasshopper-BricsCAD/GH/ParameterTypes.cs:344-347 | a new category is `Bricsys`, stored under "Category" |
| ParameterTypes.EnumGoo.Copy | Grasshopper-BricsCAD/GH/ParameterTypes.cs:282-285 | the copy has the value and key of the original |
| ParameterTypes.EnumGoo.CastFrom | Grasshopper-BricsCAD/GH/ParameterTypes.cs:302-316 | the cast succeeds exactly for a non-null source convertible to a defined enumeration value, which is taken; otherwise the value is unchanged |
| ParameterTypes.EnumGoo.Write | Grasshopper-BricsCAD/GH/ParameterTypes.cs:297-301 | the value is written as an int under the key; the result is always true |
| ParameterTypes.EnumGoo.Read | Grasshopper-BricsCAD/GH/ParameterTypes.cs:292-296 | the int under the key becomes the value, defined or not; a missing item throws and changes nothing |
| ParameterTypes.EnumRoundTrip | Grasshopper-BricsCAD/GH/ParameterTypes.cs:292-301 | an enumeration value written under a key reads back unchanged |
| DatabaseUtils.SubentityFromCode | Grasshopper-BricsCAD/GH/ParameterTypes.cs:102 | the cast of a byte to a subentity type gives the named member for 0 to 3 and another member otherwise |
| DatabaseUtils.SubentityCodeRoundTrip | Grasshopper-BricsCAD/GH/ParameterTypes.cs:102-112 | the byte form of a subentity type loses nothing, in either direction |
| DatabaseUtils.InsertId | Grasshopper-BricsCAD/DatabaseUtils.cs:30-34 | the first id of the path, or the null id for an empty path |
| DatabaseUtils.ToFspInsertId | Grasshopper-BricsCAD/DatabaseUtils.cs:22-42 | the path `ToFsp` makes of an id leads back to it, is never a null link and names the whole entity |
| DatabaseUtils.HandleText | Grasshopper-BricsCAD/DatabaseUtils.cs:48 | a handle's text is non-empty and holds no ':' |
| DatabaseUtils.ParseHandleText | Grasshopper-BricsCAD/Visualization/GrasshopperPreview.cs:338 | the text of a handle converts back to the same handle |
| DatabaseUtils.ParseHexDigits | Grasshopper-BricsCAD/Visualization/GrasshopperPreview.cs:338 | hexadecimal digits whose value fits in 64 bits convert to that value read as a two's-complement `long` |
| DatabaseUtils.HandleTexts | Grasshopper-BricsCAD/DatabaseUtils.cs:46-49 | one text per id of the path, none holding ':' |
| DatabaseUtils.HandlesText | Grasshopper-BricsCAD/DatabaseUtils.cs:45-49 | the accumulated text is empty exactly when the path has no ids |
| DatabaseUtils.HandlesTextAppend | Grasshopper-BricsCAD/DatabaseUtils.cs:48 | one more id appends its handle text and a ':' |
| DatabaseUtils.HandlesTextIsJoin | Grasshopper-BricsCAD/DatabaseUtils.cs:45-49 | the accumulated text is the handle texts joined by ':' with one more ':' at the end |
| DatabaseUtils.HandlesTextThen | Grasshopper-BricsCAD/DatabaseUtils.cs:45-57 | text after the accumulated handles is one more ':'-separated piece |
| DatabaseUtils.FspTextAsWritten | Grasshopper-BricsCAD/DatabaseUtils.cs:43-58 | as written, the text throws exactly for the null link |
| DatabaseUtils.FspText | Grasshopper-BricsCAD/DatabaseUtils.cs:43-58 | the intended text gives "" for the null link |
| DatabaseUtils.AsWrittenAgreesOffNullLink | Grasshopper-BricsCAD/DatabaseUtils.cs:43-58 | apart from the null link, the code as written computes exactly the intended text |
| DatabaseUtils.NullLinkTextThrows | Grasshopper-BricsCAD/DatabaseUtils.cs:52 | the null link makes `Remove(Length - 1)` throw, where the intended text is "" |
| DatabaseUtils.FspTextSplit | Grasshopper-BricsCAD/DatabaseUtils.cs:43-58 | splitting the text on ':' gives back the handle texts, then the subentity piece for a type other than Null |
| DatabaseUtils.SuffixHasNoColon | Grasshopper-BricsCAD/DatabaseUtils.cs:53-57 | the subentity piece holds no ':' |
| DatabaseUtils.PathToString | Grasshopper-BricsCAD/DatabaseUtils.cs:43-58 | the loop over the ids and the switch on the type compute the as-written text |
| DatabaseUtils.ToCategoryString | Grasshopper-BricsCAD/DatabaseUtils.cs:150-162 | the name is empty exactly for Standard and for values outside the named members |
| DatabaseUtils.CategoryStringInjective | Grasshopper-BricsCAD/DatabaseUtils.cs:150-162 | distinct named categories get distinct names |
| DatabaseUtils.Entities | Grasshopper-BricsCAD/DatabaseUtils.cs:72 | exactly the entities among the objects, in order |
| DatabaseUtils.ModelSpace.constructor | Grasshopper-BricsCAD/DatabaseUtils.cs:70-71 | an empty model space, with no undo record and no transaction |
| DatabaseUtils.ModelSpace.AppendObjectsToDatabase | Grasshopper-BricsCAD/DatabaseUtils.cs:59-80 | an empty collection changes nothing; otherwise an undo record when asked, one transaction, and one new increasing model-space id per entity, in order |
| DatabaseUtils.ModelSpace.AppendEntities | Grasshopper-BricsCAD/DatabaseUtils.cs:72-76 | the loop appends each entity to model space under the next new id |
| DatabaseUtils.HostApplication.constructor | Grasshopper-BricsCAD/DatabaseUtils.cs:176 | the application starts with the working database given |
| DatabaseUtils.HostApplication.TransientGraphicsManager | Grasshopper-BricsCAD/DatabaseUtils.cs:174-181 | the manager is the one current while the document's database is the working one, and the working database is restored afterwards |
| Convert.UnitsToRhino | Grasshopper-BricsCAD/Convert.cs:66-91 | each of the nineteen known units maps to a Rhino unit other than None, and any other value to None |
| Convert.UnitsFromRhino | Grasshopper-BricsCAD/Convert.cs:66-91 | every Rhino unit but None comes from a host unit |
| Convert.UnitsRoundTrip | Grasshopper-BricsCAD/Convert.cs:66-91 | the mapping is a bijection between the nineteen units on each side |
| Convert.FaceGroup | Grasshopper-BricsCAD/Convert.cs:58-60 | a quad gives `[4, A, B, C, D]` and a triangle `[3, A, B, C]` |
| Convert.FacesToHost | Grasshopper-BricsCAD/Convert.cs:54-63 | the host list is empty exactly when there are no faces |
| Convert.FacesRoundTrip | Grasshopper-BricsCAD/Convert.cs:54-63 | the host face list reads back as exactly the faces it came from |
| Convert.PointsToHost | Grasshopper-BricsCAD/Convert.cs:34-41 | the list keeps its length, each point converted in place |
| Convert.VectorsToHost | Grasshopper-BricsCAD/Convert.cs:42-45 | the list keeps its length and each vector's components |
| Convert.ColorToHost | Grasshopper-BricsCAD/Convert.cs:46-49 | red, green and blue are kept and alpha is dropped |
| Convert.ColorIgnoresAlpha | Grasshopper-BricsCAD/Convert.cs:46-49 | colours differing only in alpha give the same host colour |
| Convert.ColorsToHost | Grasshopper-BricsCAD/Convert.cs:50-53 | the list keeps its length, each colour converted in place |
| Convert.CopyKnots | Grasshopper-BricsCAD/Convert.cs:152-153 | knots 1 to Count-2 of the host curve become knots 0 to Count-3 of the Rhino curve, and no other knot changes |
| Commands.RelativePathIsBelow | Grasshopper-BricsCAD/Commands.cs:182-195 | outside `SRCHPATH`, a relative path is given exactly for a definition below the drawing's directory, and it is what follows that directory and its separator |
| Commands.RelativePathAgrees | Grasshopper-BricsCAD/Commands.cs:182-195 | wherever the intended path is defined, the code as written gives the same path |
| Commands.RelativePathSiblingDirectory | Grasshopper-BricsCAD/Commands.cs:191-194 | as written, a definition in a sibling directory whose name begins with the drawing directory's name gets a mangled path instead of being refused |
| Commands.ToUpper | Grasshopper-BricsCAD/Commands.cs:237 | the upper-cased answer keeps its length, character by character |
| Commands.AbsoluteKeywordLetters | Grasshopper-BricsCAD/Commands.cs:237 | the keyword is "A" or "ABSOLUTE", each letter in either case |
| Commands.GhFileNameEnding | Grasshopper-BricsCAD/Commands.cs:251-255 | a path is accepted exactly when it ends in ".gh" or ".ghx" |
| Commands.GhEndingIsGhFileName | Grasshopper-BricsCAD/Commands.cs:251 | a path ending in ".gh" or ".ghx" is accepted |
| Commands.ExtensionEndsPath | Grasshopper-BricsCAD/Commands.cs:251 | the extension of a path is its end |
| Commands.EndingInFileName | Grasshopper-BricsCAD/Commands.cs:251 | an ending with one leading '.' and no separator is the extension |
| Commands.CommandLineAttachPathAccepted | Grasshopper-BricsCAD/Commands.cs:231-255 | an accepted path is a Grasshopper file name: the one typed, or the absolute one made relative |
| Commands.CommandLineAttachGhData | Grasshopper-BricsCAD/Commands.cs:225-262 | the path prompts decide the outcome; records are attached exactly when a path is accepted and a selection made, and otherwise nothing changes |
| Commands.ChooseDefinition | Grasshopper-BricsCAD/Commands.cs:164-177 | a definition is chosen only when an answer gives a relative path after every earlier answer was refused, and it is that path |
| Commands.AttachGhData | Grasshopper-BricsCAD/Commands.cs:155-180 | records are attached exactly when a selection is made and the dialog loop chooses a definition; otherwise nothing changes; on success the new records are exactly the attached ones, each visible and naming the relative path of the answer the loop took, and every attachable selected entity carries a record |
| Commands.ClearGhData | Grasshopper-BricsCAD/Commands.cs:264-286 | afterwards no selected entity carries a record, every entity outside the selection keeps the record it had, no entity gains one, and the records themselves stay |
| Commands.StopsAsWrittenIgnoresActive | Grasshopper-BricsCAD/Commands.cs:79-81 | as written, the guard stops the command only when nothing is linked, so a selection in another drawing goes on |
| Commands.SelectedPathsFrom | Grasshopper-BricsCAD/Commands.cs:97-109 | every collected path is one of an item's subentities or the whole entity of an item without any, and every such path is collected |
| Commands.CollectSelection | Grasshopper-BricsCAD/Commands.cs:97-109 | the loop collects the paths of the items, in order |
| Commands.AllOfTypeIsEvery | Grasshopper-BricsCAD/Commands.cs:114 | `All` over the type holds exactly when every path has that type |
| Commands.AllCurvesIsEvery | Grasshopper-BricsCAD/Commands.cs:125 | `All` over the curve test holds exactly when every path's entity is a curve |
| Commands.ToGrasshopper | Grasshopper-BricsCAD/Commands.cs:76-153 | the command stops exactly when the corrected guard says; a new parameter is made only for a non-empty selection of one type, of the kind that type calls for, initialised with the selected paths and the linked drawing's name |
| Commands.WholeEntitiesParameter | Grasshopper-BricsCAD/Commands.cs:124-130 | whole entities make a curve parameter exactly when every one is a curve, and an entity parameter otherwise |
| Commands.AttachData | Grasshopper-BricsCAD/Commands.cs:197-223 | every selected entity that can take a record gets a new visible record of the definition, and the new records are the registered ones; with no entity that can take one, nothing changes, neither the database nor the manager's cache; each new record holds the properties registering it on the cache as it was before gives, a failure is that registration's exception, and the cache ends as it was or as that registration leaves it, the latter whenever a record the manager had not cached was registered |
| Commands.AttachOne | Grasshopper-BricsCAD/Commands.cs:206-218 | an entity that cannot take a record changes neither the database nor the manager's cache; one that can gets a new record, which is then registered: the manager's cache, the record's properties and the result are what `AddGrasshopperData` gives; no other entity's record changes, and a record once carried stays |
| Commands.RegisterNewStep | Grasshopper-BricsCAD/Commands.cs:213-217 | a registration on a cache that is as before the command or as the first registration left it leaves it one of the two, the latter for a record not cached, with the result and properties of registering on the cache before the command |
| Commands.AttachNext | Grasshopper-BricsCAD/Commands.cs:204-218 | one turn of the loop keeps its state, or fails with the registration's exception after an entity that could take a record |
| Commands.RecordsStep | Grasshopper-BricsCAD/Commands.cs:204-218 | the database side of one turn: every entity passed that could take a record carries one, and while none could nothing has changed |
| Commands.CacheStep | Grasshopper-BricsCAD/Commands.cs:213-217 | the manager side of one turn: the new record's properties and the cache are as registering on the cache before the command gives |
| Commands.AttachRecord | Grasshopper-BricsCAD/Commands.cs:206-213 | the new record is visible and of the definition; it is attached exactly when the entity can take one, and then it is a new record of the database |
| Commands.OthersStayAttachable | Grasshopper-BricsCAD/Commands.cs:213 | attaching to one entity rewrites only its own extension dictionary, so every other entity that could take a record still can |
| Commands.BakeGhData | Grasshopper-BricsCAD/Commands.cs:288-321 | the records of the selected entities are collected in order; with none the command ends before the dialog; when the dialog is accepted the drawing's manager bakes them |
| GrasshopperPlayer.FormatName | Grasshopper-BricsCAD/GrasshopperPlayer.cs:147-148 | the stored name is the nickname with the `BcIn_` prefix taken off: the prefix followed by the result is the nickname |
| GrasshopperPlayer.FormatNameInverse | Grasshopper-BricsCAD/GrasshopperPlayer.cs:147-148 | prefixing a name and formatting it gives the name back, and two input nicknames with one stored name are the same nickname |
| GrasshopperPlayer.InputParams | Grasshopper-BricsCAD/GrasshopperPlayer.cs:125-146 | exactly the parameters of the definition with no sources, some recipients, not locked, a `BcIn_` nickname and no volatile data, in object order |
| GrasshopperPlayer.GetInputParams | Grasshopper-BricsCAD/GrasshopperPlayer.cs:125-146 | the loop over the objects returns `InputParams` of the definition's objects |
| GrasshopperPlayer.FirstItem | Grasshopper-BricsCAD/GrasshopperPlayer.cs:76-111 | there is a first item exactly when the tree has a non-null item, and it is the first of them |
| GrasshopperPlayer.InputEntry | Grasshopper-BricsCAD/GrasshopperPlayer.cs:72-119 | an input has an entry exactly when it is of one of the six primitive kinds; a stored value has that kind's type, and so does a placeholder |
| GrasshopperPlayer.InputValues | Grasshopper-BricsCAD/GrasshopperPlayer.cs:66-124 | every input that has an entry contributes its stored name and entry, and every pair comes from such an input |
| GrasshopperPlayer.GetInputParametersValues | Grasshopper-BricsCAD/GrasshopperPlayer.cs:66-124 | the loop returns `InputValues` of the definition's inputs |
| GrasshopperPlayer.PropertyOf | GrasshopperDataManaged/src/GrasshopperData.cpp:170-176 | only a set property yields a value, and it is a boxed value |
| GrasshopperPlayer.GetPropertyIsPropertyOf | GrasshopperDataManaged/src/GrasshopperData.cpp:170-176 | a record's `GetProperty` is `PropertyOf` its properties |
| GrasshopperPlayer.BindParam | Grasshopper-BricsCAD/GrasshopperPlayer.cs:24-55 | one iteration binds the input to what the record stores under its formatted name (`BindInput`) |
| GrasshopperPlayer.BindInputs | Grasshopper-BricsCAD/GrasshopperPlayer.cs:22-56 | every input object of the definition is bound in place and every other object and switch of the definition is unchanged |
| GrasshopperPlayer.Run | Grasshopper-BricsCAD/GrasshopperPlayer.cs:12-65 | the definition ends enabled with its inputs bound and one more solution requested; the process-wide `EnableSolutions` switch is back to its value before the run |
| GrasshopperPlayer.EntityInputBound | Grasshopper-BricsCAD/GrasshopperPlayer.cs:27-34 | an entity input holds exactly one reference, to the host entity's handle, loaded exactly when the drawing holds that handle |
| GrasshopperPlayer.StoredValueRebinds | Grasshopper-BricsCAD/GrasshopperPlayer.cs:40-55 | a value taken from an input by `GetInputParametersValues` and bound back by `Run` leaves the input holding exactly its first persistent item (points and vectors survive the conversion to the host and back) |
| GrasshopperPlayer.BoundInputShape | Grasshopper-BricsCAD/GrasshopperPlayer.cs:36-47 | an input with nothing stored for it is left alone; any bound input holds at most one item, at {0}[0] |
| GhKernel.NonNull | Grasshopper-BricsCAD/GH/GeometryParam.cs:69 | the non-null items of a list, no more of them than items, and a goo is among them exactly when it is a non-null item |
| GhKernel.AllData | Grasshopper-BricsCAD/GH/GeometryParam.cs:106 | a goo is in `AllData(true)` exactly when it is a non-null item of some branch |
| GhKernel.DataCount | Grasshopper-BricsCAD/GrasshopperPlayer.cs:139 | the count is zero exactly when every branch is empty |
| GhKernel.AllDataEmpty | Grasshopper-BricsCAD/GrasshopperPlayer.cs:139 | a parameter with no volatile data count has no volatile items at all |
| GhKernel.GeoRefs | Grasshopper-BricsCAD/GH/GeometryParam.cs:106 | `OfType<IGH_BcGeometricGoo>()`: a reference is in the result exactly when it is one of the goo items |
| GhKernel.Handles | Grasshopper-BricsCAD/GH/GeometryParam.cs:112 | one persistent handle per reference, in order |
| GhKernel.PutItem | Grasshopper-BricsCAD/GrasshopperPlayer.cs:31 | the item is at `index`, the list is padded with nulls up to it, and every other position is unchanged |
| GhKernel.FindBranch | Grasshopper-BricsCAD/GrasshopperPlayer.cs:31 | the first branch with that path, or -1 exactly when no branch has it |
| GhKernel.AddData | Grasshopper-BricsCAD/GrasshopperPlayer.cs:31 | `AddVolatileData`: the item lands in the branch of its path (a new last branch when there is none) and every other branch is unchanged |
| GhKernel.AddToEmpty | Grasshopper-BricsCAD/GrasshopperPlayer.cs:29-31 | adding one item at {0}[0] to a cleared tree gives the one-branch tree holding only that item |
| GhKernel.GhDocument.NewSolution | Grasshopper-BricsCAD/GhDrawingContext.cs:154 | one more solution is requested and nothing else of the definition changes |
| GhKernel.GhDocument.SelectedObjects | Grasshopper-BricsCAD/Visualization/GrasshopperPreview.cs:71 | the ids of exactly the selected objects |
| GhKernel.SelectedExpressions | Grasshopper-BricsCAD/GH/Components/RenderMaterial.cs:31 | the expressions of exactly the selected items |
| GhKernel.Rebuilt | Grasshopper-BricsCAD/GH/Components/RenderMaterial.cs:32-44 | one item per entry with its name and expression, selected exactly when its expression was selected before |
| GhKernel.RebuiltAppend | Grasshopper-BricsCAD/GH/Components/RenderMaterial.cs:36-42 | one more entry appends one item |
| GhKernel.RebuiltKeepsSelection | Grasshopper-BricsCAD/GH/Components/RenderMaterial.cs:31-44 | a second refresh from the same entries leaves every item as the first one did: the selection survives a refresh |
| GhKernel.Quoted | Grasshopper-BricsCAD/GH/Components/RenderMaterial.cs:38 | the name between two double quotes |
| GhKernel.QuotedInjective | Grasshopper-BricsCAD/GH/Components/RenderMaterial.cs:38-39 | two names with the same expression are the same name, so matching expressions selects by name |
| Text.LessIrreflexive | GrasshopperData/src/DbGrasshopperData.h:10 | no property name sorts before itself in the name-ordered map |
| Text.LessTransitive | GrasshopperData/src/DbGrasshopperData.h:10 | the key order of the map is transitive |
| Text.LessTotal | GrasshopperData/src/DbGrasshopperData.h:10 | any two distinct names are ordered one way or the other |
| Text.LessAsymmetric | GrasshopperData/src/DbGrasshopperData.h:10 | no two names sort before each other |
| Text.Split | Grasshopper-BricsCAD/Commands.cs:185 | at least one piece, and no piece holds the separator |
| Text.SplitJoin | Grasshopper-BricsCAD/Commands.cs:185 | splitting a `;`-joined list of separator-free entries gives the entries back |
| Text.NatToString | Grasshopper-BricsCAD/DatabaseUtils.cs:57 | a non-empty string of decimal digits |
| Text.IntToString | Grasshopper-BricsCAD/DatabaseUtils.cs:57 | a non-empty string of decimal digits and minus signs |
| Text.HexString | Grasshopper-BricsCAD/DatabaseUtils.cs:48 | a non-empty string of upper-case hexadecimal digits |
| Text.HexValue | Grasshopper-BricsCAD/Visualization/GrasshopperPreview.cs:338 | a digit's value is below 16 |
| Text.HexStringValue | Grasshopper-BricsCAD/Visualization/GrasshopperPreview.cs:338 | parsing back in base 16 the digits a handle is written with gives the number |
| Paths.FileName | Grasshopper-BricsCAD/GhDefinitionManager.cs:77-89 | the end of the path holding no separator |
| Paths.FileNameWithoutExtension | Grasshopper-BricsCAD/GH/ParameterTypes.cs:124 | a name holding no separator |
| Paths.Extension | Grasshopper-BricsCAD/Commands.cs:251 | empty, or a '.' followed by at least one character and no other '.' |
| Paths.ExtensionSplitsFileName | Grasshopper-BricsCAD/Commands.cs:251 | a non-empty extension ends the file name and the name without extension is the rest |
| Paths.DirectoryName | Grasshopper-BricsCAD/Commands.cs:186-187 | a proper prefix of the path (or nothing from nothing) |
| Paths.DirectoryThenRest | Grasshopper-BricsCAD/Commands.cs:186-187 | a path with a separator is its directory, one separator and its file name |
| Paths.Combine | Grasshopper-BricsCAD/GhDefinitionManager.cs:77-89 | `b` when `a` is empty or `b` is rooted, `a` for an empty `b`, otherwise `a` and `b` with one separator between them unless `a` already ends with one |
| Paths.CombineFileName | Grasshopper-BricsCAD/GhDefinitionManager.cs:77-89 | the file name of a directory combined with a separator-free name is that name |
| Paths.FileNameOfSuffix | Grasshopper-BricsCAD/GhDefinitionManager.cs:77-89 | a path ending in a separator-free name right after a separator has that name as its file name |

## Left out

Not modelled, with the reason:

- `Grasshopper-BricsCAD/Rhinoceros.cs` and `Grasshopper-BricsCAD/GhBcConnection.cs` are not part of this model. They cover assembly loading, starting and stopping Rhino, the idle and event pumps, document locking and sending commands to the editor, all host start-up and callbacks. Starting Rhino and running its loop (`Rhinoceros.Run`) are left out of `GrasshopperPlayer.Run` and `Commands` for the same reason.
- The dialogs and interactive picking are not part of this model: `UI/*.cs`, the `Grasshopper-BricsCAD-UI` project and `SelectionUtils.cs`. An editor prompt is its answer, `None` when it is cancelled. The bake dialog's properties, the definition dialog loop of `AttachGhData`, `ModalForm` and the progress meter are parameters or left out.
- Baking through temporary `.3dm` files (`BakeComponent.cs`, `BuildingElement.cs`, `Blocks.cs`) and the entity conversions of `Convert.cs` through a temporary file take foreign I/O. The entities a bake produces are given to `Commands.BakeGhData` and to the managers' `Bake`.
- `Properties.cs`, `Profiles.cs`, `LinearSolid.cs` and `Ifc.cs` are thin calls into the BIM library and are not part of this model. The BIM library's answers are values wherever the rest of the model needs them.
- Floating point is not modelled. This covers curve tessellation in `TransientDrawable.cs`, point, curve and plane geometry, the control points of NURBS conversion and bounding boxes. Points, vectors and colours are opaque tuples, and the single-point conversions are identities.
- The `2.55` factor of the newer transparency setting is computed exactly in rationals, with round-half-to-even. The binary rounding of the double `2.55` is not represented.
- The ACI colour table and the colour-name table are given as functions, as is the host's own drawing of an entity.
- The solver is not modelled: a `NewSolution` call only counts a solution request. Grasshopper's cast of a stored value to an input's type is not applied; the value is added as it is. `ClearData`'s other effects (runtime messages, solution phase) are not modelled.
- Reactor and event subscription is a flag meaning "subscribed". Event dispatch is not modelled: the handlers are methods that the model calls directly. A duplicate subscription collapses into one. `GhDrawingContext.Initialize`/`Terminate` (the wiring of those reactors) and `HideEditor` are left out.
- Transactions are not modelled as undoable. The rollback an exception causes in `attachData`, `ClearGhData` and `BakeGhData` is left out, as are `RecordGraphicsModified`, `SetImpliedSelection` and the placement of a new parameter on the canvas (`AddObject`).
- `StartRhino`, `StartGrasshopper`, `OpenGhFile`, `GhDefinitions` and `GhRegen` only start Rhino, open dialogs or send commands. They are not modelled.
- Transient-graphics registration of the preview (`AddTransient`, `UpdateTransient`, `EraseTransient`) and the viewport numbers are not modelled. `TransientGraphicsManager` is modelled only for the switch of the working database.
- In `DatabaseUtils`, `VisualStyleId`, `EraseObjects`, `GetLayers`, `GetMaterials`, `IsCurve` and `FindDocument` are database queries. Their answers are values wherever the model needs them. `Highlight` is recorded as a call rather than drawn.
- In `ParameterTypes`, `getGeometry` is left out because it converts geometry. Each goo's `CastTo` is left out because it converts geometry, and so are its bounding boxes. The `SpatialLocation` and `Profile` goos only wrap BIM objects and are left out.
- `CompoundDrawable.AddBlockRef`, which `getBlockRefPreview` calls, is not in `CompoundDrawable.cs`. The block insertions of a preview are recorded in the scene result instead.
- In `GeometryParam.cs`, the curve selection filter, icons, exposure and component GUIDs are left out.
- The drawable cache of a manager is a map, so the order in which a `HashSet` or `Dictionary` is enumerated is not modelled. Every result is stated for any order.
- DataManager.GhDataManager.UpdatePending: the update loop reads each record's view before the loop (the loop changes no record), and the host entity is read from that view. Opening a null or non-entity host is taken to give null.
- GrasshopperRecords.DbGrasshopperData.DwgInFields: a read the filer cannot satisfy ends the read with the filer's error. The C++ code reads on with unset values and reports the error at the end.
- GrasshopperRecords.DbGrasshopperData.DwgInFields: an out-of-range type byte, or an item of the wrong kind, is reported as a filer error. C++ would keep a bad enum value.
- Properties.GhProperty.DwgInFields: an unset primitive property is given a default value. The C++ `Impl` leaves it uninitialised, so the filing round trips are stated up to the same type, flag and set value.
- GrasshopperRecords.Database.Allocate: handles are the allocated id's number modulo 2^63, kept a non-negative 64-bit value. The host's handle seed is not modelled.
- Commands.ToUpper: upper-casing is ASCII only. Culture-specific case mapping is left out.
- DataSettings.HexPiece: trailing NUL characters, which the .NET number parser also skips, are refused.
- DataSettings.MatchRgbText: `\d` is read as the ASCII digits 0-9. The .NET pattern, compiled without `RegexOptions.ECMAScript`, also matches other Unicode decimal digits, which the following `short` parse then refuses; such texts are not modelled.
- DataSettings.ParseShort: only ASCII digits are read. Surrounding white space, which `short.TryParse` accepts, is refused.
- Paths.DirectoryName: root directories (`C:\`), separator normalisation and null arguments are left out.
- DatabaseUtils.PathToString: a null id array is an empty path. In C#, `foreach` over null would throw.
- GhDataOverrule.WorldDraw: the manager lookup (`GrasshopperDataManager(database)` then `GetGhDrawable`) is a parameter, the drawable of the entity.
- `Commands.CommandLineAttachGhData`, `Commands.AttachGhData` and `Commands.ChooseDefinition` use the corrected relative path of the first finding below.
- The corrected guard of the fourth finding below is the one `Commands.ToGrasshopper` uses.
- GrasshopperPreviews.GrasshopperPreview.UnhighlightBcData: a highlighted parameter that was removed from the active definition is no longer found, so the model switches nothing off for it, where the source switches off the references of the removed object's data.
- The preview class (`GrasshopperPreviews.GrasshopperPreview.HighlightBcData`, `UnhighlightBcData`, `Init`, `BuildScene`) keeps the stale highlight of the fifth finding below, as the code does; the corrected bookkeeping (`GrasshopperPreviews.RememberedOn`, `GrasshopperPreviews.UnhighlightLogCorrected`) is stated beside it and not used by the class, because the highlights are state the drawing shows.
- ParameterTypes.GeometricGoo.ToString: uses the corrected path text of the second finding below, so a reference whose geometry is not loaded reads "Entity " where the code as written throws; `ParameterTypes.GeometricGoo.ToStringAsWritten` models the throw.

## Findings

| source | as written | input that shows it | evidently intended | confidence | as-written member | corrected member |
|---|---|---|---|---|---|---|
| Grasshopper-BricsCAD/Commands.cs:191-194 | the drawing-directory prefix test is not made at a separator boundary, and the path is cut at the directory's length plus one | definition "C:\project2\a.gh", drawing "C:\proj\d.dwg", empty `SRCHPATH`: the result is "ct2\a.gh" | a definition outside the drawing's directory is refused (null) | not executed | Commands.RelativePathSiblingDirectory | Commands.RelativePathIsBelow |
| Grasshopper-BricsCAD/DatabaseUtils.cs:52 | for a Null subentity the last character is removed with `Remove(res.Length - 1)` even when no id was written | the null link (no ids, type Null, index 0), the value of every unloaded geometry reference: `Remove(-1)` throws | the text is "" | not executed | DatabaseUtils.NullLinkTextThrows | DatabaseUtils.FspText |
| Grasshopper-BricsCAD/GH/GeometryParam.cs:216-226 | the plural prompt loops while `Prompt_Singular` returns accept, which it never returns (likewise at lines 253-263) | a pick followed by a cancel, on a null list: nothing is added and the prompt cancels | loop while the singular prompt succeeds, collecting every pick made before the first cancel | not executed | GeometryParams.PromptPluralAsWritten | GeometryParams.PromptPluralCorrected |
| Grasshopper-BricsCAD/Commands.cs:79-81 | `LinkedDocument == null && active != LinkedDocument` stops only when no drawing is linked | drawing "a.dwg" linked, the selection made in "b.dwg": the command goes on with the wrong drawing | stop when no drawing is linked or the active drawing is not the linked one (`\|\|`) | not executed | Commands.StopsAsWrittenIgnoresActive | Commands.ToGrasshopper |
| Grasshopper-BricsCAD/Visualization/GrasshopperPreview.cs:141-165 | the highlight set keeps the parameters and `UnhighlightBcData` switches off the references they have at that moment, not the ones that were switched on | a selected parameter highlighted with reference e1, solved again to e2 while still selected (`HighlightBcData` makes no call), then a definition switch: e2 is switched off and e1 stays highlighted in the drawing | every reference switched on is switched off again | not executed | GrasshopperPreviews.StaleHighlightAsWritten | GrasshopperPreviews.CorrectedUnhighlightUndoes |
