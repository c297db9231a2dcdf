# Depot: a verified model of the package-management core

Depot keeps a private, local cache of NuGet packages, called the *depot*. A depot is a root directory plus a
settings file. The package manager does the following:

- It discovers the dependency records of a package across all configured repositories by walking the
  dependency graph.
- It hands those records to a resolver. For each package the resolver chooses, it opens the installed folder
  or downloads and extracts the package.
- It searches the repositories one after another.
- It deletes installed packages.
- It sets up credential providers.

A small command line around the package manager prints coloured headers.

This project models that core in Dafny. The package manager's source file is split over the five modules
`DependencyDiscovery`, `Install`, `Deletion`, `Search` and `CredentialProviders`. `Wrappers`, `Identity` and `Paths` hold the shared
values those modules use:

| module | models |
|---|---|
| `Wrappers` | `Option` and `Result` |
| `Identity` | package identities, versions, version ranges, dependency records, and the case-insensitive identity key |
| `Paths` | path combination and the side-by-side package folder layout `<root>/<id>.<version>` |
| `DependencyDiscovery` | `GetPackageDependencyInfosAsync` and its local function `ResolveImpl`, as imperative methods over a set of records |
| `Install` | the install loop of `InstallAsync`: a specification function `Run` with its lemmas, and a `Depot` class whose `Install` method is proved equal to it |
| `Deletion` | `Delete` and `DeleteDirectory`, as a class over a file tree |
| `Search` | the nested enumeration of `SearchAsync` |
| `CredentialOptions`, `CredentialProviders`, `ManagerConfiguration` | the option presets, the credential-service set-up and provider list, and the configuration factory |
| `DepotContexts` | the `DepotContext.Create` overloads and the depot's package path resolver |
| `ExtensionLocator` | the default extension locator |
| `TextWriterExtensions` | the coloured writes, the headers and `PadCenter` |

The package manager talks to the outside world in several places. The model turns each of these into an input:

- Each repository's dependency-info resource is a map from identity to record.
- The NuGet resolver's choice is a sequence of identities.
- Download failures are a set of identities.
- Each repository's search answer is a page of hits or an exception.
- The environment and the disk are datatypes or class fields.

Discovery assumes well-formed repositories (`WellFormedRepositories`): a repository answers for an identity
only with a record for that same identity. The walk's termination depends on this assumption. Suppose a
repository answered A with B's record, and B depended on A. Then A would never be recorded, the membership test
at PackageManager.cs:230 would keep failing, and `ResolveImpl` would recurse forever.

Four behaviours of the code are worth stating outright, because a reader might expect otherwise:

- Discovery asks every repository for every identity, not only until the first answer. The set keeps the first
  record it sees, so the record kept is still the first answering repository's (`FirstRecordsOnly`). But the
  dependencies of every repository's answer are expanded (`Closed`).
- An exception from one repository ends the search. Nothing catches it, so later repositories are not searched.
- Extraction is not made atomic by the package manager. An install stops at the first exception and keeps what it
  already installed.
- An exception while resetting attributes during a delete escapes. Only a failure of the recursive delete itself
  becomes `false`.

## Model

| member | source | states |
|---|---|---|
| Identity.FoldCase | src/libanvl.Depot.Core/Managers/PackageManager.cs:225 | the identity key folds each ASCII upper-case letter of the id to lower case, keeps every other character, and keeps the length |
| Identity.SameIdentityIgnoresCase | src/libanvl.Depot.Core/Managers/PackageManager.cs:225 | two identities whose ids differ only in ASCII letter case are the same identity exactly when their versions are equal |
| Identity.KeyOf | src/libanvl.Depot.Core/Managers/PackageManager.cs:225 | the key keeps the version and the id's length, and no ASCII upper-case letter remains in it |
| Identity.KeyOfKeyIsKey | src/libanvl.Depot.Core/Managers/PackageManager.cs:225 | folding is idempotent: an identity whose id is already a key has that same key |
| Identity.SameIdentity | src/libanvl.Depot.Core/Managers/PackageManager.cs:225 | the identity comparer holds exactly when the versions are equal and the ids have the same length and fold together character by character; equal identities always match |
| Identity.ProbeIdentity | src/libanvl.Depot.Core/Managers/PackageManager.cs:255 | a dependency is probed under its own id at its range's minimum version |
| Paths.EndsInDirectorySeparator | src/libanvl.Depot.Core/DepotContext.cs:29 | a path ends in a separator exactly when it is non-empty and its last character is the separator |
| Paths.Combine | src/libanvl.Depot.Core/DepotContext.cs:49 | an empty second part gives the first part; an empty first part or a rooted second part gives the second part; otherwise the result starts with the first part and ends with the second, with exactly one separator between them (none is added when the first part already ends in one) |
| Paths.PackagePathResolver.PackageDirectory | src/libanvl.Depot.Core/Managers/PackageManager.cs:199-204 | for a non-empty root and a plain id, a package's folder is `Path.Combine(root, "<id>.<version>")`: the root, exactly one separator (none added when the root already ends in one), then the folder name; it lies strictly below the root |
| Paths.TrailingSeparatorNotDoubled | src/libanvl.Depot.Core/Managers/PackageManager.cs:199-204 | a depot root given as `/d/` and one given as `/d` put package `a` 1 in the same folder `/d/a.1` |
| DependencyDiscovery.FirstAnswer | src/libanvl.Depot.Core/Managers/PackageManager.cs:235-250 | the repository chosen is the first, in configuration order, that answers for the identity; no repository before it answers; none answers when the result is empty |
| DependencyDiscovery.FirstAnswerFrom | src/libanvl.Depot.Core/Managers/PackageManager.cs:235-248 | the first repository at or after a given position that answers for the identity, with no answering repository skipped |
| DependencyDiscovery.AvailablePackages.constructor | src/libanvl.Depot.Core/Managers/PackageManager.cs:225 | discovery starts from an empty set |
| DependencyDiscovery.AvailablePackages.Add | src/libanvl.Depot.Core/Managers/PackageManager.cs:250 | adding reports whether the identity was new; a record is stored only for a new identity, and an existing record is never replaced |
| DependencyDiscovery.ResolveImpl | src/libanvl.Depot.Core/Managers/PackageManager.cs:228-259 | terminates on cyclic and diamond-shaped graphs; afterwards the probed identity is recorded unless no repository knows it; every record is the first answering repository's; earlier records are kept; every identity recorded during the call has the dependencies of every repository's answer settled, and is reachable from the probed identity |
| DependencyDiscovery.ExpandDependencies | src/libanvl.Depot.Core/Managers/PackageManager.cs:252-257 | each dependency, probed at its range's minimum version, ends up recorded or unknown to every repository; earlier records are kept; every identity recorded meanwhile is reachable from the identity whose dependencies these are |
| DependencyDiscovery.GetPackageDependencyInfos | src/libanvl.Depot.Core/Managers/PackageManager.cs:218-263 | the result holds the root unless no repository knows it; it holds the first answering repository's record for each identity; it is closed under the dependencies of every repository's answer; an identity is recorded exactly when some repository knows it and it is reachable from the root |
| DependencyDiscovery.ReachableKnownExactly | src/libanvl.Depot.Core/Managers/PackageManager.cs:218-263 | a settled, closed set of first records, holding only identities reachable from the root, holds exactly the known identities reachable from the root |
| DependencyDiscovery.ClosedHoldsWalk | src/libanvl.Depot.Core/Managers/PackageManager.cs:252-257 | a set closed under dependencies that holds the start of a walk holds its end, when the end is known to some repository |
| DependencyDiscovery.ReachPrepend | src/libanvl.Depot.Core/Managers/PackageManager.cs:252-257 | a dependency step followed by a path is a path: reachability extends backwards through each dependency |
| DependencyDiscovery.RecordedAreKnown | src/libanvl.Depot.Core/Managers/PackageManager.cs:237-250 | an identity is recorded only when some repository answers for it |
| DependencyDiscovery.OneRecordPerIdentity | src/libanvl.Depot.Core/Managers/PackageManager.cs:225 | the discovered set holds at most one record per identity under the identity comparer |
| DependencyDiscovery.MeasureDrops | src/libanvl.Depot.Core/Managers/PackageManager.cs:230-233 | recording a known identity that was not yet recorded shrinks the number of identities left to record, which is why the walk ends |
| DependencyDiscovery.ExpandedSinceChains | src/libanvl.Depot.Core/Managers/PackageManager.cs:252-257 | expanding identities recorded later does not undo the expansion of identities recorded earlier |
| Install.RunFacts | src/libanvl.Depot.Core/Managers/PackageManager.cs:178-215 | an install keeps every installed path; it downloads only identities that were not installed, each at most once, onto its canonical folder; the readers are exactly those `RunReaders` states |
| Install.Step | src/libanvl.Depot.Core/Managers/PackageManager.cs:186-213 | one resolved identity keeps every installed path and every earlier download; an exception changes nothing but the failure; otherwise exactly one reader is appended and the earlier readers stay |
| Install.Run | src/libanvl.Depot.Core/Managers/PackageManager.cs:186-213 | a run that starts failed changes nothing; it appends at most one reader per resolved identity after the earlier ones, and exactly one per identity when nothing fails |
| Install.RunStopsAtFailure | src/libanvl.Depot.Core/Managers/PackageManager.cs:186-213 | once an exception has been thrown, the remaining identities change nothing |
| Install.InstallTwiceDownloadsNothing | src/libanvl.Depot.Core/Managers/PackageManager.cs:188-211 | installing again after a successful install downloads nothing, changes no path, and opens every package from its folder |
| Install.AllInstalledNoDownload | src/libanvl.Depot.Core/Managers/PackageManager.cs:188-210 | when every resolved identity is discovered and installed, the run succeeds, downloads nothing, and returns the folder readers in order |
| Install.NoSingleMatchIsFirstUndiscovered | src/libanvl.Depot.Core/Managers/PackageManager.cs:178-180 | the missing-match exception names the first resolved identity that discovery did not find |
| Install.OnlyDownloadsFailWhenAllDiscovered | src/libanvl.Depot.Core/Managers/PackageManager.cs:178-206 | when discovery found every resolved identity, the only exception an install can throw is a failed download |
| Install.RunKeepsPaths | src/libanvl.Depot.Core/Managers/PackageManager.cs:188-211 | an install never moves or removes an installed package and never forgets a download |
| Install.RunDownloadsFresh | src/libanvl.Depot.Core/Managers/PackageManager.cs:188-207 | every download is of an identity not installed before, lands on its canonical folder, and happens at most once |
| Install.RunReaders | src/libanvl.Depot.Core/Managers/PackageManager.cs:184-215 | one reader per resolved identity, in order, up to any exception, and one per identity when nothing fails; an identity installed before the run is opened from its installed folder; one downloaded earlier in the same run is opened from its canonical folder; any other is read from the download of its record's source; the installed set grows by exactly the identities handled, and the new downloads are exactly those not installed before |
| Install.PrefixWithoutFailureDiscovered | src/libanvl.Depot.Core/Managers/PackageManager.cs:178-180 | a run that throws nothing has only met discovered identities |
| Install.Depot.GetInstalledPath | src/libanvl.Depot.Core/Managers/PackageManager.cs:188-189 | the installed folder is returned exactly when the package is installed |
| Install.Depot.DownloadAndExtract | src/libanvl.Depot.Core/Managers/PackageManager.cs:191-206 | on success the package lands on its canonical folder, and the download reader names the record's source; on failure nothing changes |
| Install.Depot.Install | src/libanvl.Depot.Core/Managers/PackageManager.cs:178-215 | the loop leaves the depot in the state `Run` describes; it returns `Run`'s readers or the exception `Run` stops at |
| Install.Depot.InstallWithDependencies | src/libanvl.Depot.Core/Managers/PackageManager.cs:154-216 | discovery, the resolver's choice over the discovered records and the install loop together: the records are the settled, closed, first-answer set of identities reachable from the root, and the depot ends in the state `Run` describes for the resolver's choice, with `Run`'s result |
| Deletion.FileTree.ResetAttributes | src/libanvl.Depot.Core/Managers/PackageManager.cs:298-302 | the read-only attribute of one entry is cleared, or an exception is thrown with nothing changed when the entry is protected |
| Deletion.ResetComplete | src/libanvl.Depot.Core/Managers/PackageManager.cs:298-303 | after a complete attribute pass, nothing in the tree is protected, every entry in it is no longer read-only, and the tree blocks deletion exactly when something in it is held open |
| Deletion.FileTree.DeleteRecursive | src/libanvl.Depot.Core/Managers/PackageManager.cs:305-314 | the recursive delete succeeds exactly when nothing in the tree is read-only or held open, and then removes the whole tree and nothing else |
| Deletion.FileTree.DeleteDirectory | src/libanvl.Depot.Core/Managers/PackageManager.cs:296-315 | entries outside the directory are untouched; an exception is thrown exactly when some entry in the tree is protected; otherwise the result is true exactly when nothing in the tree is in use; true leaves no entry of the tree; false leaves the tree with its attributes reset |
| Deletion.FileTree.DirectoryExists | src/libanvl.Depot.Core/Managers/PackageManager.cs:105 | a null path is not an existing directory, nor is a plain file; an existing directory is an entry of the tree |
| Deletion.FileTree.Delete | src/libanvl.Depot.Core/Managers/PackageManager.cs:99-112 | a missing package directory gives false and changes nothing; otherwise entries outside the directory are untouched; an exception is thrown exactly when something in the tree is protected, and then only attributes were reset; true is returned exactly when nothing in the tree is protected or in use, and then no entry of the tree is left; false leaves the tree with its attributes reset |
| Search.AnsweredPrefix | src/libanvl.Depot.Core/Managers/PackageManager.cs:139-146 | the repositories before the first one that throws all answered |
| Search.Concat | src/libanvl.Depot.Core/Managers/PackageManager.cs:139-146 | a hit is in the aggregate exactly when it is in some page |
| Search.Pages | src/libanvl.Depot.Core/Managers/PackageManager.cs:139-146 | the pages are those of the repositories that answered before the first exception, in order |
| Search.ConcatLength | src/libanvl.Depot.Core/Managers/PackageManager.cs:142-145 | the aggregate is as long as all the pages together |
| Search.ConcatLayout | src/libanvl.Depot.Core/Managers/PackageManager.cs:139-146 | hit j of page i appears at page i's offset plus j: nothing is merged or reordered |
| Search.ConcatKeepsDuplicates | src/libanvl.Depot.Core/Managers/PackageManager.cs:139-146 | the aggregate holds each hit as often as all the pages hold it together: there is no de-duplication |
| Search.SearchAll | src/libanvl.Depot.Core/Managers/PackageManager.cs:132-147 | what is yielded is the pages of the repositories that answered, one after another; an exception is reported exactly when some repository threw, and it is the first one's |
| CredentialOptions.PresetsDifferOnlyInPrompting | src/libanvl.Depot.Core/CredentialProviderOptions.cs:13-28 | both presets enable providers, override default credentials and use the shared default locator; they differ only in allowing prompts |
| CredentialOptions.Constructed | src/libanvl.Depot.Core/CredentialProviderOptions.cs:30-48 | a constructed value has every flag off and refers to the shared default locator |
| CredentialOptions.ZeroValue | src/libanvl.Depot.Core/CredentialProviderOptions.cs:8-49 | the default value differs from a constructed one only in having no locator |
| CredentialOptions.EnableInteractive | src/libanvl.Depot.Core/CredentialProviderOptions.cs:13-18 | providers enabled, prompts allowed, default credentials overridden, with the constructed value's locator |
| CredentialOptions.EnableNonInteractive | src/libanvl.Depot.Core/CredentialProviderOptions.cs:23-28 | providers enabled, prompts not allowed, default credentials overridden, with the constructed value's locator |
| ManagerConfiguration.Create | src/libanvl.Depot.Core/Managers/PackageManagerConfiguration.cs:22-31 | a missing logger becomes the minimal console logger; missing sources become none; each source string becomes one source, in order; the options pass through unchanged |
| ManagerConfiguration.CreateWithNoArguments | src/libanvl.Depot.Core/Managers/PackageManagerConfiguration.cs:22 | with every argument omitted: minimal console logger, credential providers disabled, no additional sources |
| CredentialProviders.CredentialServiceFor | src/libanvl.Depot.Core/Managers/PackageManager.cs:47-56 | a credential service is set up exactly when providers are enabled; it is non-interactive exactly when prompts are not allowed; it handles default credentials exactly when the options override them |
| CredentialProviders.PresetsAndCredentialService | src/libanvl.Depot.Core/Managers/PackageManager.cs:47-56 | with default options there is no credential service; the interactive preset prompts; the non-interactive preset does not |
| CredentialProviders.GetCredentialProviders | src/libanvl.Depot.Core/Managers/PackageManager.cs:265-294 | the secure-plugin providers come first, then the plugin providers; the default-network provider comes last, and only when some provider was found and the options override default credentials |
| ExtensionLocator.SeparatorIndex | src/libanvl.Depot.Core/DefaultExtensionLocator.cs:52 | the position of the first ';', or the length when there is none |
| ExtensionLocator.SplitPathList | src/libanvl.Depot.Core/DefaultExtensionLocator.cs:52 | splitting on ';' with empty entries removed gives non-empty entries without ';'; where each entry ends is fixed by `SplitWithoutSeparator` and `SplitAtSeparator` |
| ExtensionLocator.SplitKeepsContent | src/libanvl.Depot.Core/DefaultExtensionLocator.cs:52 | the entries, put back to back, are the input without its separators, in order |
| ExtensionLocator.SplitJoinRoundTrip | src/libanvl.Depot.Core/DefaultExtensionLocator.cs:52 | non-empty entries without ';', joined with ';' and split again, come back unchanged |
| ExtensionLocator.SplitWithoutSeparator | src/libanvl.Depot.Core/DefaultExtensionLocator.cs:52 | a value without ';' is one entry, or none when it is empty |
| ExtensionLocator.SplitAtSeparator | src/libanvl.Depot.Core/DefaultExtensionLocator.cs:52 | the text before the first ';' is the first entry, or no entry when it is empty, and the rest is split on its own; with the previous row this fixes every split |
| ExtensionLocator.TrailingSeparatorDropped | src/libanvl.Depot.Core/DefaultExtensionLocator.cs:52 | `a;b;` splits into `a` and `b`: a trailing ';' adds no entry |
| ExtensionLocator.LeadingAndDoubledSeparatorsDropped | src/libanvl.Depot.Core/DefaultExtensionLocator.cs:52 | `;x;;y` splits into `x` and `y`: leading and doubled ';' add no entry and merge nothing |
| ExtensionLocator.IsNullOrWhiteSpace | src/libanvl.Depot.Core/DefaultExtensionLocator.cs:46 | null and the empty string are blank; a string that starts or ends with a character other than white space is not |
| ExtensionLocator.PathsFromVariable | src/libanvl.Depot.Core/DefaultExtensionLocator.cs:43-53 | an unset, empty or white-space variable gives no paths; otherwise the paths are the expanded value split on ';' with empty entries removed, losing nothing but separators |
| ExtensionLocator.KeepExisting | src/libanvl.Depot.Core/DefaultExtensionLocator.cs:39 | keeps exactly the paths that are existing directories, each as often as it is listed |
| ExtensionLocator.SearchRoots | src/libanvl.Depot.Core/DefaultExtensionLocator.cs:37-39 | the roots searched are the existing custom paths, in their order, followed by the global root when it exists, and nothing else |
| ExtensionLocator.KeepExistingAppend | src/libanvl.Depot.Core/DefaultExtensionLocator.cs:37-39 | keeping the existing paths of two lists put together keeps those of each, in order |
| ExtensionLocator.MatchingFiles | src/libanvl.Depot.Core/DefaultExtensionLocator.cs:40 | keeps exactly the listed files whose name matches the pattern, each as often as it is listed |
| ExtensionLocator.MatchingFilesAppend | src/libanvl.Depot.Core/DefaultExtensionLocator.cs:40 | matching two listings put together matches each, in order |
| ExtensionLocator.AssembliesUnder | src/libanvl.Depot.Core/DefaultExtensionLocator.cs:40 | a file is found exactly when it lies under one of the roots and matches the pattern |
| ExtensionLocator.AssembliesUnderAppend | src/libanvl.Depot.Core/DefaultExtensionLocator.cs:40 | searching two lists of roots put together searches each, root after root |
| ExtensionLocator.EnumerateAssemblies | src/libanvl.Depot.Core/DefaultExtensionLocator.cs:35-41 | a file is found exactly when it lies under an existing search root and its name matches the pattern |
| ExtensionLocator.CustomPathsFirst | src/libanvl.Depot.Core/DefaultExtensionLocator.cs:35-41 | the files under the existing custom paths, in their order, come before those under the global root, which are searched only when it exists |
| ExtensionLocator.DirectoryPrefix | src/libanvl.Depot.Core/DefaultExtensionLocator.cs:7-17 | an empty base gives no prefix; otherwise the prefix is the base ending in a separator, at most one character longer |
| ExtensionLocator.CombineBelow | src/libanvl.Depot.Core/DefaultExtensionLocator.cs:7-17 | combining a base with two relative components joins them below the base with one separator between each two |
| ExtensionLocator.ExtensionsRootPath | src/libanvl.Depot.Core/DefaultExtensionLocator.cs:7-11 | the global extensions root is `NuGet/Commands` below the local application-data folder |
| ExtensionLocator.CredentialProvidersRootPath | src/libanvl.Depot.Core/DefaultExtensionLocator.cs:13-17 | the global providers root is `NuGet/CredentialProviders` below the local application-data folder |
| ExtensionLocator.FindExtensions | src/libanvl.Depot.Core/DefaultExtensionLocator.cs:23-27 | a file is found exactly when it is a `*.dll` under an existing path from the extensions variable or under the existing global commands folder |
| ExtensionLocator.FindCredentialProviders | src/libanvl.Depot.Core/DefaultExtensionLocator.cs:29-33 | a file is found exactly when it is a `CredentialProvider*.exe` under an existing path from the credential-providers variable or under the existing global providers folder |
| ExtensionLocator.LocatorSingleton.Instance | src/libanvl.Depot.Core/DefaultExtensionLocator.cs:21 | the locator is created on first access, and the same object is returned afterwards |
| ExtensionLocator.TwoAccessesShareTheInstance | src/libanvl.Depot.Core/DefaultExtensionLocator.cs:21 | two accesses return the same object |
| DepotContexts.CreateOutcome | src/libanvl.Depot.Core/DepotContext.cs:27-68 | the errors come in the source's order: a config name ending in a separator, an empty root or settings path, a missing root without creation, a root name taken by a file, a missing settings file without creation, a settings path taken by a directory; it succeeds exactly when none of these applies; on success the root and the settings file exist and nothing existing is overwritten; an error writes no file |
| DepotContexts.GetFullPath | src/libanvl.Depot.Core/DepotContext.cs:34-35 | an empty path is refused; a rooted path is kept; a relative path lies below a non-empty current directory |
| DepotContexts.Disk.Create | src/libanvl.Depot.Core/DepotContext.cs:27-68 | the context and the new disk are those `CreateOutcome` describes, error cases included |
| DepotContexts.Disk.CreateFromSettings | src/libanvl.Depot.Core/DepotContext.cs:77-78 | the current directory is the root, and nothing is created |
| DepotContexts.Disk.CreateForDepot | src/libanvl.Depot.Core/DepotContext.cs:87-88 | the settings are `depot.config` in the depot root |
| DepotContexts.Disk.CreateInCurrentDirectory | src/libanvl.Depot.Core/DepotContext.cs:95-96 | a depot in the current directory, with nothing created |
| DepotContexts.CreateIsIdempotent | src/libanvl.Depot.Core/DepotContext.cs:39-58 | a second `Create` after a successful one finds everything in place, even without creation, and changes nothing |
| DepotContexts.GetDepotPackagePathResolver | src/libanvl.Depot.Core/DepotContext.cs:119-120 | the resolver is rooted at the depot root, and every folder of a package with a plain id lies strictly below it |
| TextWriterExtensions.Repeat | src/libanvl.Depot.CommandLine/TextWriterExtensions.cs:37 | the character repeated exactly n times |
| TextWriterExtensions.HalfRoundedUp | src/libanvl.Depot.CommandLine/TextWriterExtensions.cs:58 | half of n, rounded up |
| TextWriterExtensions.PadLeft | src/libanvl.Depot.CommandLine/TextWriterExtensions.cs:59 | the value right-aligned with spaces to the width, or unchanged when already as wide |
| TextWriterExtensions.PadRight | src/libanvl.Depot.CommandLine/TextWriterExtensions.cs:59 | the value left-aligned with spaces to the width, or unchanged when already as wide |
| TextWriterExtensions.PadCenter | src/libanvl.Depot.CommandLine/TextWriterExtensions.cs:51-60 | a value at least as wide as the width comes back unchanged; otherwise the result is exactly the width, with the value between runs of spaces, and the left run equals the right run or exceeds it by one |
| TextWriterExtensions.ColorWriter.Emit | src/libanvl.Depot.CommandLine/TextWriterExtensions.cs:65 | the text is written in the current colours |
| TextWriterExtensions.ColorWriter.ResetColor | src/libanvl.Depot.CommandLine/TextWriterExtensions.cs:66 | both colours go back to the defaults |
| TextWriterExtensions.ColorWriter.Write | src/libanvl.Depot.CommandLine/TextWriterExtensions.cs:11-12 | the value is written in the given foreground on the current background, and the colours are reset afterwards |
| TextWriterExtensions.ColorWriter.WriteOnBackground | src/libanvl.Depot.CommandLine/TextWriterExtensions.cs:5-9 | the value is written in the given colours, and the colours are reset afterwards |
| TextWriterExtensions.ColorWriter.WriteInverted | src/libanvl.Depot.CommandLine/TextWriterExtensions.cs:14-15 | the value is written with the current colours swapped |
| TextWriterExtensions.ColorWriter.WriteLine | src/libanvl.Depot.CommandLine/TextWriterExtensions.cs:23-24 | the value and a line break are written in the given foreground |
| TextWriterExtensions.ColorWriter.WriteLineOnBackground | src/libanvl.Depot.CommandLine/TextWriterExtensions.cs:17-21 | the value and a line break are written in the given colours |
| TextWriterExtensions.ColorWriter.WriteLineInverted | src/libanvl.Depot.CommandLine/TextWriterExtensions.cs:26-27 | the value and a line break are written with the current colours swapped |
| TextWriterExtensions.ColorWriter.WriteHeader | src/libanvl.Depot.CommandLine/TextWriterExtensions.cs:29-38 | the value line, then a blank line only when expanding, then a rule of the header character exactly as long as the value |
| TextWriterExtensions.ColorWriter.WriteWrappedHeader | src/libanvl.Depot.CommandLine/TextWriterExtensions.cs:40-49 | a rule as long as the value (and a blank line when expanding), then the header |

## Left out

- The NuGet package resolver is a foreign call. Its chosen identities are an input of `Install.Depot.Install`.
- The NuGet protocol resources are inputs: dependency info, download and search, each as a map or a page.
- DependencyDiscovery.GetPackageDependencyInfos: an exception from `GetResourceAsync<DependencyInfoResource>` or `ResolvePackage` (PackageManager.cs:237-243, for instance `FatalProtocolException`) would end discovery and the install. Each repository is a total map here, so that failure is not modelled.
- Install.Depot.InstallWithDependencies: an exception thrown by `PackageResolver.Resolve` (PackageManager.cs:178) is not modelled; the resolver is a total function of the discovered records.
- Signature verification, the global packages folder and the package extraction context are not modelled.
- Version semantics are left out: versions are compared as opaque normalised text, and the range's upper bound is never consulted. The version string parsing of the string-argument `InstallAsync` overload is left out for the same reason.
- The target framework is not a parameter. Each repository's answer is the one for the requested framework.
- Identity.FoldCase: folds ASCII letters only. The identity comparer ignores case over the whole of Unicode.
- Search filter, skip and take are passed through untouched, so the model does not represent them. The `SearchAsync` overload that builds a filter from flags is not modelled.
- Async, cancellation tokens, the source cache context and every logging call are left out. Only the order of effects is kept.
- `GetInstalledAsync` and `FindByIdAsync` are left out. They delegate to a foreign local-packages resource.
- `GetDepotSourceRepository`, `GetDepotResourceAsync` and the source-repository provider are left out. They are plumbing to foreign NuGet types.
- The settings files are not modelled. The settings contents and the default and machine-wide settings merge are opaque, and the settings a context carries are only the root and file name they were loaded from.
- DepotContexts.GetFullPath: combines with the current directory but does not normalise `.` and `..`. Only the empty path is refused; paths with null characters or other invalid characters are not modelled. Only '/' is a directory separator.
- DepotContexts.CreateOutcome: a settings file that exists but cannot be loaded makes the settings loaders throw; the settings contents are not modelled, so this failure is not either.
- DepotContexts.Disk.Create: missing parent directories created along the way by `root.Create()` are not recorded; only the depot root itself is added.
- DepotContexts.CreateOutcome: does not model creating the settings directory when it differs from the depot root and is missing.
- Paths.PackagePathResolver.PackageDirectory: an empty package id, or one starting with '/', gives whatever `Path.Combine` gives (the root or the id itself); package ids are not validated here, and the contract speaks only of plain ids.
- Install.Depot.DownloadAndExtract: a failed download or extraction is modelled as leaving nothing behind. Partial extraction is not modelled.
- Deletion.FileTree.DeleteRecursive: a failing recursive delete is modelled as removing nothing. The platform may already have removed part of the tree.
- Deletion.FileTree.DeleteDirectory: resets attributes in an arbitrary order of the listed entries. The platform's enumeration order is not modelled.
- The process-wide credential service and the default-credentials preview flag the constructor assigns are modelled as a returned value (`CredentialServiceFor`), not as global state. The lazy creation of the provider list is not modelled.
- The secure-plugin and plugin credential provider builders are foreign calls. Their outputs are inputs of `GetCredentialProviders`.
- ExtensionLocator.IsWhiteSpace: covers the Latin-1 white-space characters only.
- The environment's variable expansion and the recursive file listing are opaque functions of the environment.
- TextWriterExtensions.PadLeft: the width is a natural number; the exception .NET throws for a negative width is not modelled, and `PadCenter` never passes one.
- TextWriterExtensions.PadRight: the width is a natural number, for the same reason as `PadLeft`.
- Values written by the coloured writes are strings. The `null` and arbitrary-object overloads are left out.
- The console loggers, the delegate logger, the argument parsing and the command-line program are not part of this model.
