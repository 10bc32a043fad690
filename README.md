# DynamicBoneJson in Dafny

DynamicBoneJson is a Unity editor extension. It saves the Dynamic Bone
components of a character hierarchy to a JSON file and restores them from
one. Two kinds of component are handled:

- chains (`DynamicBone`, 23 serialised fields);
- colliders (`DynamicBoneCollider`, a capsule, and `DynamicBonePlaneCollider`).

The file is keyed by node *names*, not by object identity. This project
models both directions and the text formatting the exporter applies.

**Export (`Editor/Export.cs`).**

- `DynamicBoneToJson` writes the fields of a chain. It leaves out every
  field still at its default, except `Root`, `Radius` and `Colliders`.
- `ColliderToJson` writes a collider's class, `Direction`, `Center` and
  `Bound`, plus `Radius` and `Height` for a capsule.
- `CreateBonesDict` groups the chains under the names of their nodes.
- `CreateCollidersDict` keys the colliders by node name. On duplicate
  names the last collider wins.
- `CreateDict` assembles the document.
- `WriteText` puts empty blocks on two lines. It then collapses, in one
  regular-expression pass, each bracket block the pattern matches onto a
  single line with `DeleteIndent`.

**Import (`Editor/Import.cs`).**

- `Transforms` indexes the hierarchy's nodes by name and records duplicated
  names.
- `process` refuses hierarchies with duplicated names.
- It asks (a parameter here) before deleting existing components.
- It then imports the `Collider` section, then the `DynamicBone` section.
  Every name is resolved through the index.
- `DeserializeDynamicBone` applies the properties of one chain object to a
  fresh component in document order. The first conversion that throws stops
  it.
- `DeserializeCollider` adds the component, then assigns its members one by
  one. The model splits it into three methods along the source's own
  structure: adding the component, the three common members, and the two
  capsule members. The function `SetColliderFields` that specifies them is
  written in the same stages.
- Both deserialisers keep the component being filled in a local variable.
  After each assignment they write it back into the hierarchy's sequence,
  so an exception leaves the component as far as it got.

**Modules and files.**

- `json.dfy`: the document and ordered dictionaries.
- `components.dfy`: chains, colliders and enumerations.
- `fields.dfy`: the 23 chain fields as data.
- `names.dfy`: the name index.
- `decode.dfy`: token conversions.
- `export.dfy`.
- `import.dfy`: the spec functions and the `ImportProcess` class.
- `roundtrip.dfy`: export followed by import.
- `formatter.dfy`: `WriteText` and `DeleteIndent`.

**Representation.** Each node is an index into the hierarchy's name list.
The components are sequences in `GetComponentsInChildren` order, and
`AddComponent` appends. A chain's reference is either `Local`, to a node of
the hierarchy (or a collider of it, by index), or `Foreign`, to an object
outside the hierarchy, which the model knows only by its name: that name is
all the export writes of it. An exception
is a `Failure` value: `Result` for conversions, and an `Option<Failure>`
for how far a loop got.

**Behaviour of the code worth noting.**

- The collapse is a single pass of `Regex.Replace`, not repeated until
  nothing changes. `DeleteIndent` returns one line for the whole match,
  not an opening line, a joined line and a closing line.
- The pattern's look-ahead only refuses a bracket that ends its line. A
  `],` or `},` line can therefore sit inside a match. The match at an inner
  block can then run on past that block's own closing line
  (`Formatter.MatchRunsPastItsBlock`).
- `Bound` is written as its underlying number, and `Enum.Parse` reads it
  back from the number.

## Model

| member | source | states |
|---|---|---|
| Json.Get | Editor/Import.cs:176-187 | the `JObject` indexer (`props["Type"]`, `jo["Collider"]`) finds a value exactly when the key is present; with distinct keys it is that key's value |
| Json.PutShape | Editor/Export.cs:33-66 | `d[k] = v` keeps every key in place, adds a new key at the end, and never duplicates a key |
| Json.PutGet | Editor/Export.cs:33-66 | after `d[k] = v`, reading `k` gives `v` and every other key reads as before |
| Json.PutAt | Editor/Export.cs:33-66 | for one key: after `d[k] = v` it is present exactly when it was or is `k`, reads `v` if it is `k` and as before otherwise, and distinct keys stay distinct |
| Json.PutNew | Editor/Export.cs:33-66 | setting a key that is not yet present appends it as the last entry |
| Names.NameIndex | Editor/Import.cs:239-246 | the index maps exactly the names of the hierarchy, each to the last node carrying it |
| Names.IndexesSnoc | Editor/Import.cs:244 | recording one more node under its name, at the next position, keeps the dictionary mapping every name seen to its last node |
| Names.NameIndexSnoc | Editor/Import.cs:244 | the index over one more node is the previous index with that node stored under its name |
| Names.Duplicates | Editor/Import.cs:243 | a name is recorded as duplicated exactly when two nodes carry it |
| Names.DuplicatesSnoc | Editor/Import.cs:243 | one more node adds its name to the duplicated names exactly when an earlier node carries it |
| Names.DuplicatesStep | Editor/Import.cs:243 | adding the name when the dictionary already holds it keeps the set sorted and equal to the duplicated names so far |
| Names.Transforms.constructor | Editor/Import.cs:239-246 | the loop leaves the dictionary equal to the name index and the duplications sorted and equal to the duplicated names |
| Names.Insert | Editor/Import.cs:237 | adding to the `SortedSet` keeps it sorted and adds exactly the element |
| Names.LessTransitive | Editor/Import.cs:237 | the ordering of the `SortedSet` is transitive |
| Names.LessTotal | Editor/Import.cs:237 | any two different names are ordered |
| Names.StringOf | Editor/Import.cs:250 | the `(string)` cast gives null for a null token, the text of a string, `True` or `False` for a boolean, and fails for numbers, arrays and objects |
| Names.Get | Editor/Import.cs:248-253 | a null token is no node; a string, or a boolean as `True` or `False`, resolves exactly when that text is indexed, to the node stored under it; numbers, arrays and objects fail the cast |
| Names.GetFindsLastNode | Editor/Import.cs:248-253 | a present name resolves to a node carrying it, an absent one to null |
| Names.Join | Editor/Import.cs:227 | the joined text starts with the first name and ends with the last |
| Names.JoinLines | Editor/Import.cs:227 | names without line breaks, the last not empty, joined by CR LF read back line by line as exactly those names |
| Names.DuplicateMessage | Editor/Import.cs:227 | the message starts with the fixed header |
| Names.DuplicateMessageLines | Editor/Import.cs:227 | read line by line, the message is the title line, an empty line, then the duplicated names in sorted order |
| Fields.FieldNamesDistinct | Editor/Import.cs:83-156 | the 23 `case` labels are distinct |
| Fields.AllFieldsDistinct | Editor/Export.cs:35-66 | no field is written by two statements |
| Fields.FieldNameInjective | Editor/Import.cs:83-156 | two fields with the same `case` label are the same field |
| Fields.FieldOf | Editor/Import.cs:83-156 | a key selects a field exactly when it is that field's label; any other key falls to `default` |
| Fields.FieldOfName | Editor/Import.cs:83-156 | each field's label selects that field |
| Fields.Assign | Editor/Import.cs:85-153 | one `case` sets its own field to the value and leaves the other 22 as they were |
| Fields.ProjectExtensional | Editor/Import.cs:85-153 | two chains that agree on all 23 fields are equal |
| Fields.ProjectFits | Editor/Import.cs:85-153 | the value a chain holds in a field has that field's type |
| Components.FirstColliderOf | Editor/Import.cs:73 | `GetComponent` finds the first collider on the node, or none when the node has none |
| Components.NewCollider | Editor/Import.cs:176-177 | `AddComponent(type)` attaches a collider of the class named to the node |
| Components.UpdateModeOf | Editor/Import.cs:54 | the `(T)` cast of a parsed update mode gives the member with that underlying value |
| Components.FreezeAxisOf | Editor/Import.cs:54 | the cast of a parsed freeze axis gives the member with that underlying value |
| Components.DirectionOf | Editor/Import.cs:54 | the cast of a parsed direction gives the member with that underlying value |
| Components.BoundOf | Editor/Import.cs:54 | the cast of a parsed bound gives the member with that underlying value |
| Decode.FloatOf | Editor/Import.cs:89 | `(float)` converts exactly the number tokens, to their value |
| Decode.BoolOf | Editor/Import.cs:146 | `(bool)` converts exactly the boolean tokens |
| Decode.ParseEnum | Editor/Import.cs:52-55 | a member name gives that member; an integral in-range number gives the member with that value; null, unknown names and array or object tokens each fail in their own way |
| Decode.ParseEnumMember | Editor/Import.cs:52-55 | parsing a member's name or its number gives back the member |
| Decode.EnumNamesDistinct | Editor/Import.cs:52-55 | the member names of each of the four enumerations are distinct, so each name parses to one member |
| Decode.At | Editor/Import.cs:65 | `token[i]` is the array element; past the end is out of range |
| Decode.Vector3Of | Editor/Import.cs:63-66 | the vector is the first three elements, when there are three numbers to read |
| Decode.CurveOf | Editor/Import.cs:57-61 | an array is read as the key list of a curve; any other token fails |
| Decode.Elements | Editor/Import.cs:167-170 | the group loop enumerates an array's elements and a scalar's nothing; a non-empty object's children are properties, which fail the `(JObject)` cast |
| Decode.NodesOf | Editor/Import.cs:140 | the names resolve element by element and length is kept; the first bad token fails the whole list |
| Decode.ExclusionsOf | Editor/Import.cs:139-141 | the names are an array's elements or an object's member values; the list succeeds exactly when each casts to a string, and each entry is null exactly when its name is null or not indexed |
| Decode.CollidersOf | Editor/Import.cs:68-75 | over an array's elements or an object's member values, it succeeds exactly when each casts to a string; an entry is null exactly when the name does not resolve or its node has no collider; all point into the existing colliders |
| Decode.DecodeValue | Editor/Import.cs:85-153 | each case's conversion yields a value of its field's type, and collider references stay in range |
| Decode.ApplyProp | Editor/Import.cs:83-156 | an unknown key changes nothing; a known key changes at most the field it names |
| Decode.AssignWithin | Editor/Import.cs:136-137 | an assignment keeps the collider references in range when the value stored in `m_Colliders` is |
| Decode.ApplyPropsAppend | Editor/Import.cs:81-157 | the property loop over two runs of properties is the loop over the first, then, unless it stopped, over the second |
| Decode.AbsentKeyKept | Editor/Import.cs:81-157 | a field no property names keeps the value of the fresh component |
| Decode.UnknownKeysIgnored | Editor/Import.cs:154-155 | properties that are not field labels change nothing and raise nothing |
| Decode.ApplyPropsWithin | Editor/Import.cs:136-137 | the loop only stores references to colliders that exist |
| Decode.ShapeOf | Editor/Import.cs:176 | exactly the two collider class names resolve, each to its class; an array or object fails the string cast |
| Decode.SetColliderFields | Editor/Import.cs:179-188 | the assignments keep the collider's node and class |
| Decode.DecodeCollider | Editor/Import.cs:174-189 | a component is added exactly when the class resolves, on the given node and of that class; otherwise the failure is the class lookup's |
| Decode.DecodeColliderComplete | Editor/Import.cs:179-188 | a collider completed without exception has Direction, Center and Bound, and for a capsule Radius and Height, from the object |
| Export.ToArray | Editor/Export.cs:26-29 | a vector is written as an array of exactly three elements |
| Export.NodeName | Editor/Export.cs:35 | a reference is written as null exactly when there is none, otherwise as the name of the node or of the outside object |
| Export.NodeNames | Editor/Export.cs:61 | each exclusion is written, in order, as its node's or outside object's name, or null |
| Export.ColliderNames | Editor/Export.cs:60 | each collider reference is written, in order, as the name of the node carrying it (inside or outside the hierarchy), or null |
| Export.WritesIffDiffers | Editor/Export.cs:35-66 | apart from `Root`, `Radius` and `Colliders`, a field is written exactly when it differs from the fresh component's value |
| Export.WrittenShape | Editor/Export.cs:33-66 | after each statement the dictionary holds one entry per written field so far, under its label, with its encoding |
| Export.WrittenByStatements | Editor/Export.cs:33-66 | the first statements of `DynamicBoneToJson` are guarded writes, each with its field's guard, label and encoding |
| Export.GuardedSnoc | Editor/Export.cs:33-66 | a key is written by some statement with a true guard exactly when an earlier one writes it or the last one does |
| Export.GuardedPutsKeys | Editor/Export.cs:33-66 | guarded writes leave distinct keys, exactly the keys of the statements whose guard held |
| Export.GuardedPutsValues | Editor/Export.cs:33-66 | with distinct keys, each statement whose guard held leaves its value under its key |
| Export.DynamicBoneKeys | Editor/Export.cs:31-69 | a field's label is a key exactly when its guard holds, and every key is one the import's `switch` lists |
| Export.DynamicBoneValues | Editor/Export.cs:31-69 | the keys are distinct and each written field holds its encoding |
| Export.DynamicBoneRoot | Editor/Export.cs:35 | `Root` is always written, as the name of the root node or outside object, or null |
| Export.ColliderEntries | Editor/Export.cs:89-107 | the collider's entries, in writing order, each key new when set |
| Export.ColliderKeys | Editor/Export.cs:89-107 | Type, Direction as its name, Center, and Bound as its number are always written; Radius and Height are written exactly for a capsule; no other key |
| Export.ColliderKeyList | Editor/Export.cs:89-107 | the keys are written in the order Type, Direction, Center, Bound, then Radius and Height for a capsule |
| Export.ListedKeys | Editor/Export.cs:89-107 | a dictionary with that key list has each key once, holds Radius and Height exactly for a capsule, and holds no other key |
| Export.ColliderKeySet | Editor/Export.cs:89-107 | the collider's dictionary holds each key once, Radius and Height exactly for a capsule, and no other key |
| Export.ColliderValues | Editor/Export.cs:89-107 | under each key the collider's dictionary holds the class name, the direction name, the center array, the bound number, or the capsule's radius and height |
| Export.ColliderToJson | Editor/Export.cs:89-107 | the method's statements build exactly `ColliderFields` |
| Export.BoneEntries | Editor/Export.cs:75-83 | one entry per chain in traversal order: its node's name and its written fields |
| Export.AddEntryShape | Editor/Export.cs:77-83 | adding a chain appends to its name's list or starts a new list at the end |
| Export.AddEntryInTwoSteps | Editor/Export.cs:77-83 | the `ContainsKey` test followed by `Add` equals adding in one step |
| Export.GroupKeys | Editor/Export.cs:71-87 | the grouped dictionary has one distinct key per name that occurs |
| Export.GroupValues | Editor/Export.cs:71-87 | each name's list holds exactly that name's chains, in traversal order |
| Export.GroupTotal | Editor/Export.cs:71-87 | the list lengths add up to the number of chains |
| Export.BonesDictShape | Editor/Export.cs:71-87 | one key per distinct owner name, lists in traversal order, as many entries in all as chains |
| Export.CreateBonesDict | Editor/Export.cs:71-87 | the loop builds exactly the grouped dictionary |
| Export.PutAllKeys | Editor/Export.cs:113-116 | repeated setting gives one key per distinct name |
| Export.PutAllLast | Editor/Export.cs:113-116 | a name's value is the one set last |
| Export.PutAllSnoc | Editor/Export.cs:113-116 | one more iteration of the loop is one more setter call |
| Export.CollidersDictShape | Editor/Export.cs:109-119 | one key per distinct name of a node with a collider; that key's value comes from the last such collider |
| Export.CollidersDictKeys | Editor/Export.cs:109-119 | the keys are distinct and are exactly the names of nodes carrying a collider |
| Export.CollidersDictLast | Editor/Export.cs:109-119 | under a name stands the collider written last among those on nodes of that name |
| Export.CreateCollidersDict | Editor/Export.cs:109-119 | the loop builds exactly that dictionary |
| Export.CreateDictShape | Editor/Export.cs:121-131 | the document has exactly ObjectName (the root's name), DynamicBone and Collider |
| Import.NodeNamed | Editor/Import.cs:164 | resolving a member key never fails and gives the key's node or null |
| Import.Section | Editor/Import.cs:46-47 | a section is read exactly when present and an object; a missing one is a null reference |
| Import.ImportCollidersAppends | Editor/Import.cs:191-198 | importing colliders only appends, at most one per member, each on a node a member key names |
| Import.ImportCollidersGrows | Editor/Import.cs:191-198 | importing colliders keeps those already present and adds at most one per member |
| Import.ImportCollidersNamed | Editor/Import.cs:191-198 | each collider added sits on the node some member key names |
| Import.NamedByHead | Editor/Import.cs:195-196 | a node the first member key names is named by the section |
| Import.ImportGroupAppends | Editor/Import.cs:167-170 | a group appends one chain per element on its node, all of them unless an exception stopped it |
| Import.ImportBonesAppends | Editor/Import.cs:160-172 | importing chains only appends, each on a node a group key names |
| Import.ImportGroupWithin | Editor/Import.cs:167-170 | the chains a group adds refer only to existing colliders |
| Import.ImportBonesWithin | Editor/Import.cs:160-172 | the chains imported refer only to existing colliders |
| Import.ImportDocumentOrder | Editor/Import.cs:46-47 | colliders are imported first; a chain is added only after the whole collider section completed, and refers only to colliders then present |
| Import.ImportProcess.DeletePreComponents | Editor/Import.cs:200-220 | with no components, or with the deletion confirmed, it answers yes and no component is left; declined, nothing changes |
| Import.ImportProcess.CollectHierarchies | Editor/Import.cs:222-231 | a fresh index of the hierarchy; a message exactly when names repeat, listing the duplications |
| Import.ImportProcess.DeserializeDynamicBone | Editor/Import.cs:77-158 | appends one chain on the target, with the fields the property loop reaches, and reports the exception that stopped it |
| Import.ImportProcess.DeserializeDynamicBones | Editor/Import.cs:160-172 | the chains and the fault are those of the group loop |
| Import.ImportProcess.DeserializeCollider | Editor/Import.cs:174-189 | the collider appended and the fault are those of `DecodeCollider` |
| Import.ImportProcess.SetColliderMembers | Editor/Import.cs:179-188 | the assignments to the component at index `n` leave it as `SetColliderFields` computes and change no other collider |
| Import.ImportProcess.SetCapsuleDimensions | Editor/Import.cs:183-188 | the capsule's radius and height are set in place as the conversions allow, and no other collider changes |
| Import.ImportProcess.DeserializeColliders | Editor/Import.cs:191-198 | the colliders and the fault are those of the collider loop |
| Import.ImportProcess.Process | Editor/Import.cs:30-50 | the early returns for no selection, duplicated names and a declined deletion change nothing; otherwise the hierarchy is cleared and holds what the document import yields, and the result reports its exception |
| RoundTrip.VectorRoundTrip | Editor/Import.cs:63-66 | `deserializeVector3` reads back what `ToArray` writes |
| RoundTrip.UniqueNames | Editor/Import.cs:225 | without duplications, distinct nodes have distinct names |
| RoundTrip.NodeRefBack | Editor/Import.cs:248-253 | a written reference, looked up in any index, converts without exception to the node indexed under the name written or to null; an outside object whose name is not indexed reads back as null |
| RoundTrip.ExclusionsBack | Editor/Import.cs:139-141 | a written `Exclusions` list converts without exception, entry by entry, to the references resolved by name |
| RoundTrip.CollidersBack | Editor/Import.cs:68-75 | a written `Colliders` list converts without exception, entry by entry, to the first collider on the node indexed under each name, or null |
| RoundTrip.NodeRoundTrip | Editor/Import.cs:248-253 | with unique names, a reference to a hierarchy node resolves back to that node |
| RoundTrip.ForeignRoundTrip | Editor/Import.cs:248-253 | an outside object whose name no hierarchy node carries reads back as null |
| RoundTrip.ExclusionsRoundTrip | Editor/Import.cs:139-141 | with unique names, an `Exclusions` list into the hierarchy reads back as written |
| RoundTrip.FirstColliderBack | Editor/Import.cs:68-75 | with unique names, a reference to the first collider on a node reads back as itself |
| RoundTrip.CollidersRoundTrip | Editor/Import.cs:68-75 | with unique names, a `Colliders` list reads back as written when each listed collider is in the hierarchy and the first on its node |
| RoundTrip.ModeRoundTrip | Editor/Import.cs:91-93 | an update mode's name parses back to it |
| RoundTrip.AxisRoundTrip | Editor/Import.cs:142-144 | a freeze axis's name parses back to it |
| RoundTrip.DirectionRoundTrip | Editor/Import.cs:179 | a direction's underlying value converts back to it |
| RoundTrip.BoundRoundTrip | Editor/Import.cs:181 | a bound's underlying value converts back to it |
| RoundTrip.ResolvedKeeps | Editor/Import.cs:85-153 | resolving references by name changes no field other than `Root`, `Colliders`, `Exclusions` and `ReferenceObject` |
| RoundTrip.UnwrittenResolved | Editor/Export.cs:35-66 | a field the export leaves out has the fresh component's value in the resolved chain too |
| RoundTrip.DecodeEncode | Editor/Import.cs:85-153 | every field's written value converts back, through any index, to the field's value with its references resolved by name |
| RoundTrip.WrittenStep | Editor/Export.cs:35-66 | each guarded write appends its entry, since no earlier statement wrote that key |
| RoundTrip.WrittenLacks | Editor/Export.cs:35-66 | no statement before a given one writes that statement's key |
| RoundTrip.WrittenAppends | Editor/Export.cs:35-66 | a statement whose guard holds appends its entry at the end |
| RoundTrip.ReadBackOne | Editor/Import.cs:81-157 | one written entry, read back onto any chain, raises nothing, gives its field the resolved value and leaves every other field alone |
| RoundTrip.ReadBackExtend | Editor/Import.cs:81-157 | reading back one more statement keeps every field at the resolved value if written so far and at the default otherwise |
| RoundTrip.ReadBackAppend | Editor/Import.cs:81-157 | reading back the first entries, then one more, is reading back all of them at once |
| RoundTrip.WrittenReadsBack | Editor/Import.cs:81-157 | reading back the first statements' entries raises nothing and sets exactly the fields written among them, to their resolved values |
| RoundTrip.ChainReadBack | Editor/Import.cs:77-158 | importing what `DynamicBoneToJson` writes onto a fresh component, against any name index and whatever the references point at, raises nothing and gives the chain with each reference resolved by name |
| RoundTrip.ValuesRoundTrip | Editor/Import.cs:85-153 | for any names and any references, every field other than the four reference fields is restored, and nothing is raised |
| RoundTrip.ResolvedIdentity | Editor/Import.cs:248-253 | with unique names, references only into the hierarchy, and only to first colliders, resolving by name changes nothing |
| RoundTrip.ChainRoundTrip | Editor/Export.cs:31-69 | with unique names, references only into the hierarchy, and only to the first collider on each node, importing what `DynamicBoneToJson` writes onto a fresh component raises nothing and restores every field of the chain |
| RoundTrip.ColliderMembers | Editor/Import.cs:176-188 | each member `ColliderToJson` writes converts back to the collider's own value |
| RoundTrip.ColliderTypeBack | Editor/Import.cs:176 | the written class name resolves to the collider's class, at its default dimensions |
| RoundTrip.ColliderDirectionBack | Editor/Import.cs:179 | the written direction parses back to its underlying value |
| RoundTrip.ColliderBoundBack | Editor/Import.cs:181 | the written bound parses back to its underlying value |
| RoundTrip.ColliderNumbersBack | Editor/Import.cs:180-187 | the written center, and a capsule's radius and height, convert back |
| RoundTrip.FieldsRestore | Editor/Import.cs:179-188 | members converting to a collider's values turn a fresh collider of its class into it |
| RoundTrip.ColliderRoundTrip | Editor/Export.cs:89-107 | importing what `ColliderToJson` writes onto the same node adds that collider, unchanged, without exception |
| Formatter.SplitEmptyBlocksInverse | Editor/Export.cs:151-154 | the four replacements only insert a line break between the brackets of an empty block; deleting those gives back the serialised text |
| Formatter.UnsplitReplace | Editor/Export.cs:151-154 | one replacement leaves the text unchanged once the breaks inside empty blocks are deleted |
| Formatter.SplitEmptyBlocksInk | Editor/Export.cs:151-154 | the replacements change only white space |
| Formatter.ReadLine | Editor/Export.cs:135-139 | a line read contains no terminator, and the line, its terminator and the rest make up the text |
| Formatter.ReadLineBefore | Editor/Export.cs:135-139 | a line without breaks followed by CR LF is read as that line, and reading resumes right after the CR LF |
| Formatter.ReadLineLast | Editor/Export.cs:135-139 | a non-empty last line without breaks is read whole, and it is the only line |
| Formatter.TrimStart | Editor/Export.cs:141 | trimming removes exactly the leading white space |
| Formatter.DeleteIndent | Editor/Export.cs:133-147 | the loop returns the first line, each later line trimmed after one space, then a line break |
| Formatter.SpaceInk | Editor/Export.cs:141 | the space put before each later line carries no ink |
| Formatter.JoinedInk | Editor/Export.cs:139-142 | the joined lines keep the lines' characters apart from white space |
| Formatter.IndentDeletedInk | Editor/Export.cs:133-147 | only line breaks and leading white space are removed; the other characters keep their order |
| Formatter.IndentDeletedIsOneLine | Editor/Export.cs:133-147 | the replacement is exactly one line |
| Formatter.MatchAtSpec | Editor/Export.cs:156-160 | a reported match is in the pattern's language and is the longest one at its position; when none is reported, none exists |
| Formatter.NextBracketEol | Editor/Export.cs:156-157 | the body runs up to the first bracket that ends a line |
| Formatter.LastCommaClose | Editor/Export.cs:156-157 | backtracking finds the last `},` or `],` line before that bracket |
| Formatter.CollapseInk | Editor/Export.cs:160-161 | the replacement pass changes only white space |
| Formatter.MatchedInk | Editor/Export.cs:160-161 | a match replaced by its `DeleteIndent` keeps the text apart from white space |
| Formatter.UnmatchedInk | Editor/Export.cs:160-161 | a position where nothing matches keeps its character |
| Formatter.CollapseMatched | Editor/Export.cs:160-161 | where the pattern matches, the pass writes the replacement and resumes after the match |
| Formatter.CollapseUnmatched | Editor/Export.cs:160-161 | where it does not match, the pass copies the character and moves on by one |
| Formatter.CollapseWithoutMatches | Editor/Export.cs:160-161 | text the pattern matches nowhere is left unchanged |
| Formatter.FormatTextInk | Editor/Export.cs:151-161 | the whole formatting is cosmetic: apart from white space, the text written is Json.NET's, in order |
| Formatter.MatchRunsPastItsBlock | Editor/Export.cs:156-157 | a match at an inner array can extend past that array's own `],` line |

## Left out

- The `[MenuItem]` entry points, the selection, and the message dialogs are Unity UI. The selection and the answer to the deletion dialog are parameters of `Process`.
- File panels, `StreamReader` and `StreamWriter` are I/O. The exporter's result ends at the formatted text.
- `ExportJson` only chains `CreateDict`, the serializer and `WriteText`, so it is not modelled on its own.
- `JObject.Parse` and `JsonConvert.SerializeObject` belong to the Json.NET library. The import takes the parsed document as a `Json` value. The formatter takes the serialised text as a string.
- A file that does not parse, or whose top level is not an object, is one `Unreadable` failure.
- Keyframe (de)serialisation is left out: a curve is the opaque sequence of keyframe tokens, and a curve is written exactly when it has keys.
- Floating-point arithmetic and number formatting are left out: floats are `real`, and only equality and copying are used.
- Json.NET's lenient conversions are left out. `(float)` of a numeric string and `(bool)` of a number, for example, are treated as failed casts.
- Names.StringOf: the text Json.NET gives a number token is not modelled, so a number used as a node name fails the cast instead of being looked up as its text.
- Names.DuplicateMessageLines: stated for names without line breaks and with a non-empty last name, since otherwise reading the message back by lines does not give the names.
- Decode.ParseEnum: numerals inside strings are not accepted, and integral numbers outside the declared members are refused, although `Enum.Parse` accepts both. `Enum.Parse` also trims white space around a name (`" Y"`) and combines comma-separated names with a bitwise OR (`"X, Y"`); the model refuses both as an unknown member.
- The exception types are merged into the `Failure` categories.
- Names.Less: the `SortedSet` is ordered by code point, not by the culture-sensitive default comparer.
- The enumeration members and field defaults come from the Dynamic Bone package, which is not part of this model.
- `Type.GetType` of any class name other than the two collider classes is treated as a failed lookup.
- `DestroyImmediate` removes a component from its sequence. The order in which `AddComponent` places a new component among its node's components is not modelled: new components are appended.
- Export.DynamicBoneToJson: modelled as the function `Written` over its 23 guarded statements, not as a method updating a local dictionary. It yields the same dictionary, but the in-place updates are not modelled.
- `GetComponentsInChildren` skips inactive GameObjects by default. The name index, the export and `DeletePreComponents` therefore see only active nodes, and "no component is left" holds only for those. The model treats every node as active.
- An object outside the exported hierarchy is represented only by its name (`Foreign`), since that is all the export writes of it.
- RoundTrip.ChainRoundTrip: exact restoration is stated only for unique names, references into the hierarchy, and first colliders. Outside those conditions a reference reads back as the node indexed under its name, or null, and `RoundTrip.ChainReadBack` states that general case.
- Parsed JSON objects are assumed to have distinct member names, as Json.NET's `JObject` has.
- Line breaks are CR LF, as Json.NET writes them on Windows. `DeleteIndent` ends its line with CR LF, which is `Environment.NewLine` there.
- Formatter.Ink: the whole-pipeline property compares texts with all white space removed, including white space inside string values. It does not state that the formatted text parses to the same document.
- The regular-expression engine is not modelled in general. Only this one pattern is modelled, by its greedy matching at each position.
