# Brew widget state engine, modelled in Dafny

Brew attaches jQuery UI widgets to ASP.NET WebForms controls. Each widget control
owns a `WidgetState`, which keeps the server-side widget properties and the
client-side widget in step:

- **Render.** `ParseOptions` emits every option whose value differs from its
  declared default. Arrays are compared element by element. Script-valued options
  are wrapped as `{ eval = true, on = value }`, and HTML-encoded option names are
  collected.
- **Events.** `ParseEvents` gives each widget event a post-back flag and a
  data-changed flag.
- **Page payload.** Every visible widget leaves one entry on the page. A single
  PreRenderComplete handler per page turns the entries into the client payload. It
  splits each widget's events into plain names and post-back records.
- **Postback.** `LoadPostData` reads the posted bundle (deserialized once per state
  object) and looks up this widget's entry. Each option value is then HTML-decoded,
  converted, redirected through a property link, corrected for jQuery UI's `false`
  defaults, and written back.
- **Event dispatch.** `RaisePostBackEvent` reconciles the posted options first. It
  then invokes the subscribers of the events declared under the posted name.
- **Defaults.** `SetDefaultOptions` writes each option's default.

`Int32ArrayConverter` turns a posted comma list such as `"[1,2]"`, or a JSON array,
into an `int[]`, and renders an `int[]` as `"1,2"`.

The project is built from these modules:

- `wrappers.dfy` (module `Wrappers`): `Option` and `Result`
- `values.dfy` (module `Values`): boxed .NET values, runtime and property types, faults, `PropertyDescriptor.SetValue`
- `int32_array_converter.dfy` (module `Int32ArrayConverter`): the converter, with invariant-culture `Int32.Parse` and `Int32.ToString`
- `descriptors.dfy` (module `Descriptors`): explicit descriptor tables for reflected metadata, and the records the engine exchanges
- `option_diff.dfy` (module `OptionDiff`): the render-side diff (`ParseOptions`) as functions
- `widget_events.dfy` (module `WidgetEvents`): event classification, the payload split, and dispatch
- `reconcile.dfy` (module `Reconcile`): the bundle lookup, the per-option postback reconciliation, and the defaults pass
- `webforms.dfy` (module `Webforms`): the classes: `WidgetState`, `Widget`, `Page`, `TargetControl`, and `OptionCatalog` (the per-type option cache)

`_allWidgetPostbackOptions` (src/Brew.Webforms/WidgetState.cs:28) is an instance
field, so the posted bundle is deserialized at most once per `WidgetState`, not once
per request. The model keeps it as `WidgetState.memo`, with the ghost counter
`parses` counting the deserializations.

The classes hold the state the source changes in place. Their loops are proved
against the functions of the other modules. Those functions carry the properties.

## Model

| member | source | states |
|---|---|---|
| Values.SetValue | src/Brew.Webforms/WidgetState.cs:152 | the setter succeeds exactly for null or a value of the property's type; it fails only with ArgumentException; null stores `NullStoredAs` of the property's type; a value the property can hold is stored unchanged |
| Values.NullStoredAs | src/Brew.Webforms/WidgetState.cs:152 | null is stored as `default(T)`: `false` for a bool property, 0 for an int property, null for every reference type |
| Int32ArrayConverter.ParseInt32 | src/Brew/TypeConverters/Int32ArrayConverter.cs:38 | `int.Parse` fails only with FormatException or OverflowException |
| Int32ArrayConverter.Render | src/Brew/TypeConverters/Int32ArrayConverter.cs:57 | an invariant rendering is non-empty, starts with '-' or a digit, ends with a digit and holds no comma |
| Int32ArrayConverter.Split | src/Brew/TypeConverters/Int32ArrayConverter.cs:37 | splitting yields at least one piece and no piece holds a comma |
| Int32ArrayConverter.ParseAll | src/Brew/TypeConverters/Int32ArrayConverter.cs:38 | the pieces parse exactly when each one does; the result has one element per piece, in order; a failure is the fault of some piece |
| Int32ArrayConverter.ConvertFromList | src/Brew/TypeConverters/Int32ArrayConverter.cs:44-48 | an ArrayList converts exactly when every element is a boxed Int32, to the same elements in the same order; otherwise InvalidCastException |
| Int32ArrayConverter.IntsOf | src/Brew/TypeConverters/Int32ArrayConverter.cs:47 | the integers of a list exist exactly when every element is an Int32, and they are the elements in order |
| Int32ArrayConverter.IntArray | src/Brew/TypeConverters/Int32ArrayConverter.cs:38-40 | the int[] value holds exactly the given integers, in order: reading its items back as integers gives the array again |
| Int32ArrayConverter.Renders | src/Brew/TypeConverters/Int32ArrayConverter.cs:57 | one rendering per element, in order |
| Int32ArrayConverter.CanConvertTo | src/Brew/TypeConverters/Int32ArrayConverter.cs:11-16 | the destination test; ConvertToOnlyString proves ConvertTo succeeds only where it holds |
| Int32ArrayConverter.CanConvertFrom | src/Brew/TypeConverters/Int32ArrayConverter.cs:18-23 | the source test; CanConvertFromAgreesWithConvertFrom proves it holds exactly where ConvertFrom does not fall to the base converter |
| Int32ArrayConverter.StripBrackets | src/Brew/TypeConverters/Int32ArrayConverter.cs:29-35 | the bracket stripping; StripKeepsMiddle states what it keeps |
| Int32ArrayConverter.StripKeepsMiddle | src/Brew/TypeConverters/Int32ArrayConverter.cs:29-35 | stripping keeps a contiguous part of the text that loses at most a leading '[' and a trailing ']'; brackets elsewhere stay |
| Int32ArrayConverter.Join | src/Brew/TypeConverters/Int32ArrayConverter.cs:57 | the comma join puts exactly one comma between neighbouring comma-free pieces |
| Int32ArrayConverter.ConvertFromString | src/Brew/TypeConverters/Int32ArrayConverter.cs:28-40 | a converted string has one integer per comma-separated piece; a failure is FormatException or OverflowException |
| Int32ArrayConverter.ConvertToString | src/Brew/TypeConverters/Int32ArrayConverter.cs:55-57 | only the empty array renders as the empty text; splitting a non-empty rendering on commas gives each element's rendering |
| Int32ArrayConverter.ConvertFrom | src/Brew/TypeConverters/Int32ArrayConverter.cs:25-52 | a success is an int[]; a string fails only with FormatException or OverflowException; an ArrayList converts exactly when every element is a boxed Int32, to the same items, and otherwise fails with InvalidCastException; any other source raises NotSupportedException |
| Int32ArrayConverter.ConvertTo | src/Brew/TypeConverters/Int32ArrayConverter.cs:54-61 | ConvertTo succeeds exactly towards string for an int[]; it fails with ArgumentException for anything else there and NotSupportedException for other destinations; a non-empty rendering converts back to the same int[] |
| Int32ArrayConverter.CanConvertFromAgreesWithConvertFrom | src/Brew/TypeConverters/Int32ArrayConverter.cs:18-23 | CanConvertFrom holds exactly for the sources ConvertFrom does not hand to the base converter (string and ArrayList) |
| Int32ArrayConverter.ConvertToOnlyString | src/Brew/TypeConverters/Int32ArrayConverter.cs:11-16 | ConvertTo succeeds only towards string, and always succeeds for an int[] there |
| Int32ArrayConverter.DigitsValueOfDecimal | src/Brew/TypeConverters/Int32ArrayConverter.cs:57 | the decimal digits of n read back as n |
| Int32ArrayConverter.TrimsOfUnpadded | src/Brew/TypeConverters/Int32ArrayConverter.cs:38 | white-space trimming leaves text without surrounding white space unchanged |
| Int32ArrayConverter.ParseRender | src/Brew/TypeConverters/Int32ArrayConverter.cs:38 | `int.Parse` reads back every invariant rendering of an Int32 |
| Int32ArrayConverter.OutOfRangeOverflows | src/Brew/TypeConverters/Int32ArrayConverter.cs:38 | a number outside [-2^31, 2^31-1] raises OverflowException |
| Int32ArrayConverter.SplitCount | src/Brew/TypeConverters/Int32ArrayConverter.cs:37 | the number of pieces is the number of commas plus one |
| Int32ArrayConverter.SplitNoComma | src/Brew/TypeConverters/Int32ArrayConverter.cs:37 | text without a comma is one piece |
| Int32ArrayConverter.SplitPiece | src/Brew/TypeConverters/Int32ArrayConverter.cs:37 | a comma-free piece followed by a comma splits off as the first piece |
| Int32ArrayConverter.SplitJoin | src/Brew/TypeConverters/Int32ArrayConverter.cs:37 | splitting undoes the comma join of one or more comma-free pieces |
| Int32ArrayConverter.JoinEnds | src/Brew/TypeConverters/Int32ArrayConverter.cs:57 | the join of non-empty pieces starts with the first piece's first character and ends with the last piece's last character |
| Int32ArrayConverter.StripUnbracketed | src/Brew/TypeConverters/Int32ArrayConverter.cs:29-35 | text without a leading '[' or trailing ']' is not changed by the bracket stripping |
| Int32ArrayConverter.ParseAllRenders | src/Brew/TypeConverters/Int32ArrayConverter.cs:37-38 | parsing the renderings of integers gives them back |
| Int32ArrayConverter.ParseAllCons | src/Brew/TypeConverters/Int32ArrayConverter.cs:38 | parsing a list whose first piece parses to h and whose rest parses to t gives h followed by t |
| Int32ArrayConverter.RoundTrip | src/Brew/TypeConverters/Int32ArrayConverter.cs:25-61 | ConvertFrom(ConvertTo(a)) == a for every non-empty int[] |
| Int32ArrayConverter.EmptyArrayDoesNotRoundTrip | src/Brew/TypeConverters/Int32ArrayConverter.cs:37-38 | the empty int[] renders as "" and "" fails with FormatException |
| Int32ArrayConverter.BracketsOptional | src/Brew/TypeConverters/Int32ArrayConverter.cs:29-35 | a leading '[' and a trailing ']' are each optional and dropped independently |
| Int32ArrayConverter.OneTwoRendering | src/Brew/TypeConverters/Int32ArrayConverter.cs:55-58 | [1, 2] renders as "1,2", without brackets or spaces |
| Int32ArrayConverter.BracketExamples | src/Brew/TypeConverters/Int32ArrayConverter.cs:29-38 | "[1,2]", "1,2", "[1,2" and "1,2]" all convert to [1, 2] |
| Int32ArrayConverter.ConvertFromStringPieces | src/Brew/TypeConverters/Int32ArrayConverter.cs:37-38 | a string converts to one element per piece, in order, exactly when every piece parses |
| Int32ArrayConverter.EmptyPieceFails | src/Brew/TypeConverters/Int32ArrayConverter.cs:38 | an empty piece ("" or "1,,2") fails the conversion |
| Descriptors.PropertyNames | src/Brew.Webforms/WidgetState.cs:239 | the names of the declared properties, and only those |
| Descriptors.FindProperty | src/Brew.Webforms/WidgetState.cs:140 | the property found by name has that name and is declared |
| Descriptors.Reflect | src/Brew.Webforms/WidgetState.cs:239-242 | the reflected options are at most as many as the properties, and each is backed by a declared property |
| Descriptors.ReflectMembers | src/Brew.Webforms/WidgetState.cs:239-242 | an option is reflected exactly for each property carrying `[WidgetOption]` |
| Descriptors.ReflectDistinctProperties | src/Brew.Webforms/WidgetState.cs:239-242 | no two reflected options share a property |
| Descriptors.ReflectMatchesDeclaration | src/Brew.Webforms/WidgetState.cs:239-242 | every option carries its property's declared type, converter and links |
| Descriptors.FindDistinct | src/Brew.Webforms/WidgetState.cs:140 | among distinct names the lookup finds the declared property |
| OptionDiff.Keys | src/Brew.Webforms/WidgetState.cs:197 | one key per dictionary entry, in order |
| OptionDiff.ArraysEqual | src/Brew.Webforms/WidgetState.cs:184-189 | the element-wise array test; EmitsIffDiffers states the emission rule it feeds |
| OptionDiff.Emits | src/Brew.Webforms/WidgetState.cs:191 | the emission test; EmitsIffDiffers states it as a difference from the default |
| OptionDiff.Diff | src/Brew.Webforms/WidgetState.cs:180-198 | at most one emitted entry per option (DiffMembers and DiffPrefix state which, and in what order) |
| OptionDiff.EncodedNames | src/Brew.Webforms/WidgetState.cs:200-202 | at most one encoded name per option (EncodedNamesMembers states which) |
| OptionDiff.ParseStep | src/Brew.Webforms/WidgetState.cs:181-202 | after a fault one more option changes nothing |
| OptionDiff.ParseFrom | src/Brew.Webforms/WidgetState.cs:180-203 | a loop started after a fault leaves the state as it was |
| OptionDiff.ParseStepGrows | src/Brew.Webforms/WidgetState.cs:181-202 | one option appends at most one entry and one encoded name, keeps what was there in front, and a fault leaves both unchanged |
| OptionDiff.ParseFromGrows | src/Brew.Webforms/WidgetState.cs:180-203 | the loop only appends: the starting dictionary and encoded list stay in front, each option adding at most one of each |
| OptionDiff.ParseStepOutcome | src/Brew.Webforms/WidgetState.cs:197-202 | one step faults exactly when the emitted key repeats an earlier one; otherwise it appends the entry and the encoded name |
| OptionDiff.EmitsIffDiffers | src/Brew.Webforms/WidgetState.cs:184-191 | an option is emitted exactly when its value is null with a non-null default, or is non-null, not equal to the default and not an element-wise equal array |
| OptionDiff.DiffMembers | src/Brew.Webforms/WidgetState.cs:180-198 | every emitted entry comes from an emitting option, with its name and rendered value, and every emitting option has its entry |
| OptionDiff.DiffPrefix | src/Brew.Webforms/WidgetState.cs:180-198 | the entries of a prefix of the options are a prefix of the entries (declaration order) |
| OptionDiff.AllDefaultsEmitNothing | src/Brew.Webforms/WidgetState.cs:191 | a widget whose values all equal their defaults emits no option |
| OptionDiff.EncodedNamesMembers | src/Brew.Webforms/WidgetState.cs:200-202 | every HtmlEncoding option name is listed, emitted or not, and no other |
| OptionDiff.ParseFromOutcome | src/Brew.Webforms/WidgetState.cs:178-205 | ParseOptions raises ArgumentException exactly when an emitted key repeats; otherwise it appends the diff and the encoded names |
| OptionDiff.SecondParseFaults | src/Brew.Webforms/WidgetState.cs:197 | a second ParseOptions on the same state raises ArgumentException once any option was emitted |
| OptionDiff.ParseFaultStops | src/Brew.Webforms/WidgetState.cs:197 | after an ArgumentException no later option is emitted or listed |
| WidgetEvents.FirstDataChanged | src/Brew.Webforms/WidgetState.cs:38-46 | no data-changed event exactly when no event member is a DataChangedHandler |
| WidgetEvents.FirstDataChangedIsFirst | src/Brew.Webforms/WidgetState.cs:38-46 | the data-changed event is the first DataChangedHandler member's name |
| WidgetEvents.ClassEvents | src/Brew.Webforms/WidgetState.cs:209-212 | one record per class-level event, in order, with both flags false |
| WidgetEvents.Classify | src/Brew.Webforms/WidgetState.cs:226-229 | a member event keeps the attribute's name; it posts back exactly when both the attribute and the widget ask for it; it is the data-changed event exactly when the data-changed handler bears its name |
| WidgetEvents.MemberEvents | src/Brew.Webforms/WidgetState.cs:218-232 | at most one record per event member; none posts back unless the widget auto-posts back |
| WidgetEvents.EventsOf | src/Brew.Webforms/WidgetState.cs:207-232 | every class-level event and at most one record per member; none posts back unless the widget's AutoPostBack is true |
| WidgetEvents.MemberEventsClassified | src/Brew.Webforms/WidgetState.cs:218-231 | each member event record comes from an attributed member with the flags ParseEvents computes, and every attributed member has one |
| WidgetEvents.EventFlags | src/Brew.Webforms/WidgetState.cs:207-234 | class events come first with both flags false; a member event posts back exactly when its attribute asks for it and the widget is an auto-postback widget set to true; it is the data-changed event exactly when its name is the first DataChangedHandler's |
| WidgetEvents.PartitionCounts | src/Brew.Webforms/WidgetState.cs:300-306 | the plain names and the post-back names together are the event names, as a multiset |
| WidgetEvents.PartitionLengths | src/Brew.Webforms/WidgetState.cs:300-306 | the two lists together are as long as the event list |
| WidgetEvents.PartitionMembers | src/Brew.Webforms/WidgetState.cs:300-306 | an event is in the plain list exactly when it does not post back, and in the post-back list exactly when it does, each in event order |
| WidgetEvents.PlainMembers | src/Brew.Webforms/WidgetState.cs:300-303 | a name is in the plain list exactly when some event of that name does not post back |
| WidgetEvents.RefMembers | src/Brew.Webforms/WidgetState.cs:304-306 | a post-back record is listed exactly when some event posting back carries its name and data-changed flag |
| WidgetEvents.PartitionOrder | src/Brew.Webforms/WidgetState.cs:300-306 | the lists built from a prefix of the events are prefixes of the full lists |
| WidgetEvents.PlainEventNames | src/Brew.Webforms/WidgetState.cs:300 | the plain list; PlainMembers and PartitionOrder state its contents and order |
| WidgetEvents.PostBackRefs | src/Brew.Webforms/WidgetState.cs:301-306 | the post-back list; RefMembers and PartitionOrder state its contents and order |
| WidgetEvents.RenderItem | src/Brew.Webforms/WidgetState.cs:294-307 | every event of the entry lands in exactly one of the item's two lists |
| WidgetEvents.Dispatch | src/Brew.Webforms/WidgetState.cs:328-343 | dispatch fails only with NullReferenceException, and every invocation comes from an existing delegate field |
| WidgetEvents.UnmatchedNameInvokesNothing | src/Brew.Webforms/WidgetState.cs:332-334 | a name no member declares invokes nothing and raises nothing |
| WidgetEvents.DispatchInvokesMatching | src/Brew.Webforms/WidgetState.cs:328-343 | dispatch invokes exactly the subscribers of the members declared under the name; it fails exactly when such a member has no delegate field |
| WidgetEvents.DispatchFaultStops | src/Brew.Webforms/WidgetState.cs:336-337 | after a missing delegate field no later member is looked at |
| Reconcile.LookupFirstMatch | src/Brew.Webforms/WidgetState.cs:254-263 | the lookup returns the options of the first entry for (control id, widget name), and an empty map when none matches |
| Reconcile.LookupEntry | src/Brew.Webforms/WidgetState.cs:258-260 | an empty dictionary when no entry matches; a non-empty result is the options of a matching entry |
| Reconcile.PostedValue | src/Brew.Webforms/WidgetState.cs:104-113 | the value TryGetValue leaves; AbsentKeyResetsProperty states what null for an absent name does |
| Reconcile.Decoded | src/Brew.Webforms/WidgetState.cs:117-119 | decoding keeps the runtime type the converter is asked about, and touches only strings of HtmlEncoding options |
| Reconcile.Differs | src/Brew.Webforms/WidgetState.cs:121 | the reference test, modelled as "not both null"; the line for it under "Left out" says where the source differs |
| Reconcile.Corrected | src/Brew.Webforms/WidgetState.cs:148-150 | the value is replaced only for a `false` bound to a string option, by the option's default |
| Reconcile.Retried | src/Brew.Webforms/WidgetState.cs:157-159 | the retry hands over the same value, or null in place of `false` |
| Reconcile.Convert | src/Brew.Webforms/WidgetState.cs:126-134 | without a converter, or with one that does not accept the value's runtime type, the value is passed on raw; the Int32Array converter given a string or an ArrayList returns its ConvertFrom result, which on success is an int[] (for an ArrayList, holding the same items) |
| Reconcile.MatchingLinks | src/Brew.Webforms/WidgetState.cs:137 | the links whose target type is the value's runtime type |
| Reconcile.LinkTarget | src/Brew.Webforms/WidgetState.cs:136-144 | no links: the option's own property; links and a null value: NullReferenceException; two or more links matching the value's runtime type: InvalidOperationException; none matching: the own property; exactly one: the declared property it names, or the own property when no such property is declared |
| Reconcile.WriteValue | src/Brew.Webforms/WidgetState.cs:146-162 | the write fails exactly when the corrected value is non-null, of the wrong type, and not the `false` retried as null, and only with ArgumentException; on success the target holds the corrected value when it can hold it, and otherwise the null stand-in of its type (null given, or `false` retried as null); no other property changes |
| Reconcile.ReconcileOption | src/Brew.Webforms/WidgetState.cs:104-163 | one option's reconciliation, as written, keeps the set of properties (ConvertedValueStored and LinkedValueStored state what it writes and where) |
| Reconcile.ConvertedValueStored | src/Brew.Webforms/WidgetState.cs:121-152 | without links, a posted value that differs from the current one and converts to w stores the corrected w in the option's own property, and changes nothing else |
| Reconcile.LinkedValueStored | src/Brew.Webforms/WidgetState.cs:121-152 | with exactly one link matching the converted value's type and naming a declared property p, the corrected value is stored in p, and the option's own property keeps its value when it is not p |
| Reconcile.ReconcileAll | src/Brew.Webforms/WidgetState.cs:99-167 | the LoadPostData loop, as written, keeps the set of properties |
| Reconcile.ReconcileStep | src/Brew.Webforms/WidgetState.cs:103-164 | one turn of the LoadPostData loop keeps the set of properties, and does nothing once a fault has occurred |
| Reconcile.ReconcileAllIntended | src/Brew.Webforms/WidgetState.cs:103-113 | the intended loop keeps the set of properties (IntendedKeepsUnchanged and IntendedAgreesWhenAllPosted relate it to the loop as written) |
| Reconcile.DefaultsAll | src/Brew.Webforms/WidgetState.cs:82-90 | the defaults loop keeps the set of properties (DefaultsApplied states what it stores) |
| Reconcile.DefaultOption | src/Brew.Webforms/WidgetState.cs:84-88 | one default write keeps the set of properties |
| Reconcile.DefaultStep | src/Brew.Webforms/WidgetState.cs:84-88 | one turn of the defaults loop keeps the set of properties, and does nothing once a fault has occurred |
| Reconcile.StringFalseStoresDefault | src/Brew.Webforms/WidgetState.cs:147-152 | a `false` bound for a string option stores the option's default, and fails only for a default a string cannot hold |
| Reconcile.FalseWithNullDefaultRetried | src/Brew.Webforms/WidgetState.cs:154-161 | a `false` for a property that cannot hold it, with a null default, is retried as null and stores null (or zero) |
| Reconcile.EncodedTextDecodedOnce | src/Brew.Webforms/WidgetState.cs:117-134 | an HtmlEncoding string option whose converter passes the decoded text through (the string converter does) stores the posted text decoded once |
| Reconcile.AbsentKeyResetsProperty | src/Brew.Webforms/WidgetState.cs:108-113 | as written, an option missing from the posted entry resets a non-null property to null or zero, or faults when it has links |
| Reconcile.ProgressbarValueReset | src/Brew.Webforms/WidgetState.cs:108-113 | as written a progress bar at 40 returns to 0 when the entry omits "value"; the intended reading keeps 40 |
| Reconcile.EchoKeepsOption | src/Brew.Webforms/WidgetState.cs:104-163 | a posted value that, once decoded and converted, is the option's current value (and no link redirects it) leaves every property unchanged |
| Reconcile.EchoKeepsAll | src/Brew.Webforms/WidgetState.cs:99-167 | a postback whose entry echoes every option in that sense changes nothing |
| Reconcile.SameValueEchoes | src/Brew.Webforms/WidgetState.cs:117-134 | a posted value equal to the current one, which the converter does not take and decoding leaves alone, is an echo |
| Reconcile.IntArrayListEchoes | src/Brew.Webforms/WidgetState.cs:104-163 | an int[] option with the Int32Array converter posted back as the JSON array of its own elements is an echo, and its reconciliation changes nothing |
| Reconcile.IntArrayTextEchoes | src/Brew.Webforms/WidgetState.cs:104-163 | an int[] option with the Int32Array converter posted back as its own non-empty comma rendering (which decoding leaves alone) is an echo, and its reconciliation changes nothing |
| Reconcile.IntendedKeepsUnchanged | src/Brew.Webforms/WidgetState.cs:103-113 | under the intended reading, an entry holding only echoes, or nothing, changes nothing |
| Reconcile.IntendedAgreesWhenAllPosted | src/Brew.Webforms/WidgetState.cs:108-113 | when the entry names every option, the intended and the as-written reconciliation agree |
| Reconcile.ReconcileFaultStops | src/Brew.Webforms/WidgetState.cs:103-164 | as written, once an option faults the loop stops: later options are not reconciled and the writes made before the fault stay |
| Reconcile.IntendedFaultStops | src/Brew.Webforms/WidgetState.cs:103-164 | under the intended reading too, a fault stops the loop and the writes made before it stay |
| Reconcile.DefaultOptionEffect | src/Brew.Webforms/WidgetState.cs:84-88 | one default write fails exactly for a default of the wrong type, with ArgumentException, and otherwise stores the default |
| Reconcile.DefaultsTouchOnlyOptions | src/Brew.Webforms/WidgetState.cs:82-90 | the defaults pass changes only option properties |
| Reconcile.DefaultsApplied | src/Brew.Webforms/WidgetState.cs:82-90 | afterwards every option property holds its default, unless a default of the wrong type stops the pass with ArgumentException |
| Reconcile.DefaultsFault | src/Brew.Webforms/WidgetState.cs:82-90 | the defaults pass faults exactly when some default is of the wrong type, and only with ArgumentException |
| Reconcile.DefaultsStored | src/Brew.Webforms/WidgetState.cs:82-90 | after a pass without fault every option property holds its stored default |
| Reconcile.DefaultsFaultStops | src/Brew.Webforms/WidgetState.cs:83-89 | the defaults pass stops at its first fault |
| Reconcile.DefaultsThenNothingEmitted | src/Brew.Webforms/WidgetState.cs:82-90 | after the defaults pass, ParseOptions emits no option when every default is a value its property can hold |
| Webforms.TaggedAsWrittenContainsName | src/Brew.Webforms/WidgetState.cs:63-72 | as written, the name occurs in the attribute afterwards and a second call changes nothing |
| Webforms.TaggedAsWritten | src/Brew.Webforms/WidgetState.cs:65-68 | the attribute value as written; TaggedAsWrittenContainsName and SubstringNameNotRecorded state its effect |
| Webforms.SubstringNameNotRecorded | src/Brew.Webforms/WidgetState.cs:67 | as written, "button" is not recorded on a target listing "buttonset" |
| Webforms.Tagged | src/Brew.Webforms/WidgetState.cs:65-68 | the attribute value with list membership; TaggedRecordsName states its effect |
| Webforms.TaggedRecordsName | src/Brew.Webforms/WidgetState.cs:63-72 | the name becomes an element of the comma list after the names already there; a second call changes nothing |
| Webforms.OptionCatalog.GetWidgetOptions | src/Brew.Webforms/WidgetState.cs:236-246 | the options are the reflected ones, and the cache then maps the type to them |
| Webforms.WidgetState.constructor | src/Brew.Webforms/WidgetState.cs:35-47 | the state remembers the first DataChangedHandler event |
| Webforms.WidgetState.SetWidgetNameOnTarget | src/Brew.Webforms/WidgetState.cs:63-72 | as written: unless the widget name already occurs in the `data-ui-widget` value as a substring, the name is appended after a comma (or becomes the value when it was empty); afterwards the name occurs in the value; no other attribute changes |
| Webforms.WidgetState.AddPagePreRenderCompleteHandler | src/Brew.Webforms/WidgetState.cs:74-80 | the page has exactly one engine handler afterwards |
| Webforms.WidgetState.SetDefaultOptions | src/Brew.Webforms/WidgetState.cs:82-90 | the properties become DefaultsAll of the old ones |
| Webforms.WidgetState.WriteDefaults | src/Brew.Webforms/WidgetState.cs:83-89 | the properties become DefaultsAll of the old ones, and the fault is its fault; nothing else of the widget changes |
| Webforms.WidgetState.EnsureWidgetPostDataLoaded | src/Brew.Webforms/WidgetState.cs:265-282 | the memo holds the deserialized `__brew` list on a postback whose field is non-empty and deserializes, an empty list otherwise, and once set is never replaced; the field is deserialized at most once per state |
| Webforms.WidgetState.LoadPostDataForControl | src/Brew.Webforms/WidgetState.cs:254-263 | the result is the lookup in the loaded bundle |
| Webforms.WidgetState.LoadPostData | src/Brew.Webforms/WidgetState.cs:99-167 | as written: the properties become ReconcileAll of the old ones with the entry posted for this widget, where an option the entry does not name is handed null; a fault stops the loop with the earlier writes kept; the memo is loaded only when there are options, and never re-read; the result is false |
| Webforms.WidgetState.ReconcileOptions | src/Brew.Webforms/WidgetState.cs:103-164 | the properties become ReconcileAll of the old ones with the posted entry, which is looked up from the memo in every turn; nothing else of the widget changes |
| Webforms.WidgetState.ParseOptions | src/Brew.Webforms/WidgetState.cs:178-205 | the options and encoded list become ParseFrom of the old ones |
| Webforms.WidgetState.ParseOption | src/Brew.Webforms/WidgetState.cs:181-202 | one option's turn of ParseOptions is ParseStep of the old dictionary and encoded list |
| Webforms.WidgetState.AppendOptions | src/Brew.Webforms/WidgetState.cs:180-203 | the dictionary, the encoded list and the fault become ParseFrom of the old ones |
| Webforms.WidgetState.ParseEvents | src/Brew.Webforms/WidgetState.cs:207-234 | the event list gains the classified events of the widget type |
| Webforms.WidgetState.AppendMemberEvents | src/Brew.Webforms/WidgetState.cs:218-232 | the event list gains the classified attributed members, in declaration order |
| Webforms.WidgetState.AddWidgetHash | src/Brew.Webforms/WidgetState.cs:248-252 | only a visible widget's entry is recorded |
| Webforms.WidgetState.ParseEverything | src/Brew.Webforms/WidgetState.cs:169-176 | options saved, events parsed, and the entry recorded when visible; a ParseOptions fault stops it with the saved options, events and page entries unchanged; the widget's fields, subscriber log, visibility, properties, the memo and the page's handler flag are never touched |
| Webforms.WidgetState.PagePreRenderComplete | src/Brew.Webforms/WidgetState.cs:284-310 | nothing without entries; otherwise one payload item per entry, in order |
| Webforms.WidgetState.RaisePostBackEvent | src/Brew.Webforms/WidgetState.cs:322-344 | as written: the properties first become ReconcileAll of the old ones with the posted entry; a reconciliation fault invokes nothing; otherwise the subscriber log grows by the dispatch of the name, or up to the member whose delegate field is missing; the option, encoded and event lists, the saved options, fields and visibility are kept, and the memo is loaded as by LoadPostData |
| Webforms.WidgetState.InvokeSubscribers | src/Brew.Webforms/WidgetState.cs:328-343 | the subscriber log grows by the dispatch of the name, or, on a missing delegate field, by the dispatch of the members before it, with NullReferenceException; the properties and fields do not change |

## Left out

- JSON reading and writing: `JavaScriptSerializer`, the `PostBackHashConverter` and the payload script are left out. The bundle is a page constant, `Page.deserialized`. The payload is a sequence of `RenderedItem` records.
- `ScriptManager` registration and the resource script templates are output plumbing and are left out.
- Reflection is replaced by explicit descriptor tables (`WidgetType`, `PropertyDecl`, `EventDecl`).
- `DynamicInvoke` of a delegate field is modelled by appending the field's subscribers to an invocation log. What a handler does is not modelled.
- `HttpUtility.HtmlDecode`, and the `ConvertFrom` of converters other than `Int32ArrayConverter`, are library code. They are parameters (`Reconcile.Env`).
- The option cache is a `ConcurrentDictionary`; its thread safety is not modelled. The cache is a sequential map.
- Reconcile.Differs: the `value != currentValue` reference test is modelled as "not both null". The two references can also coincide on a string. RaisePostBackEvent (src/Brew.Webforms/WidgetState.cs:324) runs LoadPostData again over the memoized bundle. A posted string the first pass stored is then the very instance posted again, since `StringConverter.ConvertFrom` and an `HtmlDecode` of text without '&' return their argument. There the source skips the write and the model writes the same value again. For the same value, conversion, link resolution, correction and the setter yield what the first pass stored, so the stored value is the same either way.
- `Descriptors.NoConverter` stands for the base `TypeConverter`. In .NET `PropertyDescriptor.Converter` is never null, so the `converter != null` test (src/Brew.Webforms/WidgetState.cs:129) always holds. The base converter's CanConvertFrom accepts no value modelled here, so `Reconcile.Convert` passes the value on raw, exactly as the null-converter branch does. A string property's `StringConverter` is a `Library` converter.
- Reconcile.DefaultOption: the `defaultValue != currentValue` reference test is modelled by structural inequality. Both lead to the same property values, because rewriting an equal value changes nothing.
- OptionDiff.ArraysEqual: the `(IEnumerable<object>)` cast also fails at run time for value-type arrays such as `int[]`. The model compares the items of any two arrays, and does not model that InvalidCastException.
- WidgetHash.cs is not part of this model. The entry is taken to hold the widget name, the target's client id, the widget's UniqueID, the saved options, the encoded names and the events. `IWidget.SaveWidgetOptions` (Extender.cs) is modelled as saving the options just parsed.
- Int32ArrayConverter.ParseInt32: trailing NUL characters, which `Int32.Parse` also tolerates, are not modelled.
- Int32ArrayConverter.StripBrackets: `StartsWith` and `EndsWith` are culture-sensitive in .NET and are modelled as ordinal comparisons.
- A property with a missing `SingleOrDefault` uniqueness (two `[WidgetOption]` or two `[WidgetEvent]` on one member) cannot be declared in the descriptor tables, so its InvalidOperationException is not modelled.

## Findings

| source | as written | input that shows it | evidently intended | confidence | as-written member | corrected member |
|---|---|---|---|---|---|---|
| src/Brew.Webforms/WidgetState.cs:108-113 | `TryGetValue` leaves `null` for an option the posted entry does not name. The lookup never returns null, so the guard at :110 always holds and the option is written as null. | A progress bar whose Value is 40, with a posted entry that omits "value": Value becomes 0. | An option missing from the entry keeps its current value (comments at :105 and :107). | medium, not executed | Reconcile.ProgressbarValueReset | Reconcile.IntendedKeepsUnchanged |
| src/Brew.Webforms/WidgetState.cs:67 | `attr.Contains(WidgetName)` is a substring test on the comma list. | The target lists "buttonset" and a "button" widget is added: "button" is not recorded. | The name is recorded unless it is already an element of the list. | medium, not executed | Webforms.SubstringNameNotRecorded | Webforms.TaggedRecordsName |
