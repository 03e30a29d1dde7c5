# ferenda core, modelled in Dafny

This project models the deterministic core of ferenda, a Python framework for
downloading and parsing Swedish legal sources, together with two helpers of the
lagen.nu web application. The model is written in Dafny and its properties
are proved by the Dafny verifier. It covers:

- **The composite repository** (`ferenda/compositerepository.py`,
  `composite.dfy`). This repository fronts an ordered list of
  sub-repositories. The model covers:
  - the memoised registry of instances and how each instance finds its
    configuration;
  - the composed classes used when `extrabases` is set;
  - the composite store, which enumerates basefiles without duplicates and
    records who reported what;
  - `download` over all sub-repositories;
  - `parse` by ordered fallback over the preferred sub-repositories, with the
    short-circuit skip, `failfast` and rename handling;
  - `copy_parsed` with its freshness skip.

  Sub-repositories are values describing their behaviour. Files are a map
  from paths to (content, mtime).
- **Riksdagen** (`riksdagen.dfy`):
  - `remote_url`, with the base-36 year offset;
  - `modify_url_if_needed`;
  - `metadata_from_basefile`;
  - `htmlparser`;
  - the page rearrangement of `sanitize_body`, which moves a misplaced
    "Bilaga" box to the top of a page.
- **lagen.nu autocomplete** (`wsgiapp.dfy`):
  - the padding and `remove` count of `expand_partial_ref`, with the citation
    parser as a parameter;
  - `mangle_result`.
- **Court reports, DV** (`ferenda/sources/legal/se/dv.py`):
  - `dv_zip.dfy`: zip member names to basefiles, actions, counters and the
    download cap of `process_zipfile`;
  - `dv_body.dfy`: `sanitize_body` and `glue_shortlines`;
  - `dv_meta.dfy`: steps 0 to 6 of `sanitize_metadata`;
  - `dv_sokord.dfy`: `sanitize_sokord`;
  - `dv_parser.dfy`: the pure parser helpers, the two grammar tables with
    `transition_domskal`, and `construct_id`.
- **Agency regulations** (`ferenda/sources/legal/se/myndfskr.py`):
  - `myndfskr_basefile.dfy`: the basefile normaliser and its per-agency
    overrides;
  - `myndfskr_identify.dfy`: alt-labels, `basefile_from_uri` and
    `metadata_from_basefile`;
  - `myndfskr_sosfs.dfy`: SOSFS's year rule;
  - `myndfskr_meta.dfy`: the identifier rules of `sanitize_metadata`;
  - `myndfskr_filters.dfy`: the control-byte filter, the authorisation-URI
    filter and NFS's consolidation row;
  - `myndfskr_watermark.dfy`: the `recordlastbasefile` watermark;
  - `myndfskr_afs.dfy`: AFS's margin mover;
  - `myndfskr_pmfs.dfy`: PMFS's grammar table, heading test, list items, and
    the `construct_id` that mints unique URIs.

`pystr.dfy` spells out the Python string operations these rely on.
`wrappers.dfy` holds the `Option` type.

Where the code does something its authors evidently did not intend, the model
has both versions:
- the code as written, with a lemma that exhibits the discrepancy;
- the intended behaviour, which the rest of the model uses.

Each such case is listed under "## Findings".

## Model

| member | source | states |
|---|---|---|
| CompositeRepo.InstanceConfigPath | ferenda/compositerepository.py:92-99 | the new instance is configured from the composite's subsection named after the class alias, else the parent's subsection of that name, else the composite's own configuration; the path chosen always names an existing section |
| CompositeRepo.Registry.Put | ferenda/compositerepository.py:126 | an OrderedDict assignment: the key maps to the instance; a new key goes last and an existing key keeps its place |
| CompositeRepo.Registry.PutIfAbsent | ferenda/compositerepository.py:193-194 | `if c not in d: d[c] = inst`: an existing entry and the order are kept, a new key is appended |
| CompositeRepo.CompositeStore.constructor | ferenda/compositerepository.py:18-27 | a non-empty registry passed in is shared; a missing or empty one is replaced by a new empty registry; no basefiles are recorded yet |
| CompositeRepo.CompositeStore.ListBasefilesFor | ferenda/compositerepository.py:29-48 | for an action that is a substring of "parse", yields the sub-repositories' basefiles in registry order with duplicates removed (first occurrence kept) and records each under its class; any other action yields the store's own listing and records nothing |
| CompositeRepo.ListingProperties | ferenda/compositerepository.py:37-44 | the yielded basefiles contain no duplicate, are exactly the reported ones, and keep the order of first report |
| CompositeRepo.RecordHas | ferenda/compositerepository.py:41 | after recording, a class holds a basefile iff it held it before or reported it |
| CompositeRepo.ListingStep | ferenda/compositerepository.py:40-44 | one more report is yielded iff its name is new, and is recorded under its class |
| CompositeRepo.CompositeStore.Remove | ferenda/compositerepository.py:50-55 | every registered store and then the composite's own store delete their files for the basefile, and the count returned is the number of files deleted |
| CompositeRepo.RemoveAllProperties | ferenda/compositerepository.py:50-55 | after removal a path is absent iff it belongs to the basefile and to one of the stores; every other file is untouched; the disk shrinks by exactly the count reported |
| CompositeRepo.RemoveOwnedCount | ferenda/compositerepository.py:53 | one store's removal shrinks the disk by the number of its files for that basefile |
| CompositeRepo.ComposeClass | ferenda/compositerepository.py:137-140 | the composed class keeps name and alias; its bases are the extra bases not already among the class's own bases, followed by the class itself |
| CompositeRepo.NewBases | ferenda/compositerepository.py:138 | a base is kept iff it is an extra base not among the class's bases |
| CompositeRepo.ComposeAllAt | ferenda/compositerepository.py:136-141 | the i-th composed class is the i-th sub-repository class composed with the extra bases |
| CompositeRepo.ClassesStep | ferenda/compositerepository.py:136-146 | the class list grows by one class per sub-repository: the composed one when there are extra bases, else the class itself |
| CompositeRepo.GetDefaultOptions | ferenda/compositerepository.py:156-167 | the options are the composite's own, then each key only a sub-repository defines with the value of the first one that defines it, then `failfast` set to False |
| CompositeRepo.AddDefaults | ferenda/compositerepository.py:162-164 | a key already present keeps its value; a new key takes the first value listed for it |
| CompositeRepo.FirstDefaultAppend | ferenda/compositerepository.py:161-164 | a later sub-repository never overrides a default an earlier one gave |
| CompositeRepo.Instantiate | ferenda/compositerepository.py:76-127 | get_instance returns the registered instance when the class has one and changes nothing; otherwise it creates a new instance of that class, configured from InstanceConfigPath, and registers it last |
| CompositeRepo.CompositeRepository.GetInstance | ferenda/compositerepository.py:76-127 | the same memoisation, on the repository object's own registry |
| CompositeRepo.InstantiateAll | ferenda/compositerepository.py:135-146 | the constructor's loop registers an instance for every (composed) class, in first-seen order, each built by Instantiate's rule; the composed list is returned when there are extra bases |
| CompositeRepo.InstantiateNext | ferenda/compositerepository.py:136-144 | one round of that loop keeps the registry in first-seen order of the classes so far |
| CompositeRepo.Build | ferenda/compositerepository.py:129-153 | the registry holds one instance per class of the class list, in order; the store shares the registry when there are sub-repositories and starts with no recorded basefiles |
| CompositeRepo.CompositeRepository.constructor | ferenda/compositerepository.py:129-153 | the repository's sub-repository list is the composed one when there are extra bases, every class is instantiated once in order, and the store lives under datadir + "/" + alias |
| CompositeRepo.DownloadEach | ferenda/compositerepository.py:188-213 | the download loop calls the sub-repositories in order, registers in the store each one tried that was missing, and produces the run DownloadSpec describes |
| CompositeRepo.CompositeRepository.Download | ferenda/compositerepository.py:188-213 | download: the disk and the call log are those of DownloadSpec; the repository's own registry is unchanged and the store's registry gains the classes tried |
| CompositeRepo.DownloadOrder | ferenda/compositerepository.py:189-213 | the classes tried are a prefix of the sub-repositories, failures are swallowed, and the loop stops early only right after a requested basefile was got |
| CompositeRepo.DownloadAllWithoutBasefile | ferenda/compositerepository.py:211 | without a requested basefile every sub-repository is asked to download |
| CompositeRepo.DownloadStep | ferenda/compositerepository.py:189-213 | one step of the download loop: a sub-repository that got the requested basefile ends the run |
| CompositeRepo.RegisteredProperties | ferenda/compositerepository.py:193-194 | after download the store's registry holds the earlier entries unchanged plus the instances of the classes tried |
| CompositeRepo.RegisteredStep | ferenda/compositerepository.py:193-194 | one step of that registration adds a class only when it is missing |
| CompositeRepo.CopyParsedAt | ferenda/compositerepository.py:304-331 | after copy_parsed a composite path holds the sub-repository's file iff the freshness skip did not apply and the path is the entry, distilled or parsed file or (for "dir" storage) a parsed attachment; every other path is unchanged |
| CompositeRepo.CopyAttachmentsAt | ferenda/compositerepository.py:326-331 | each listed parsed attachment is copied and nothing else changes |
| CompositeRepo.CopyParsedIdempotent | ferenda/compositerepository.py:304-331 | running copy_parsed twice leaves the same disk as running it once |
| CompositeRepo.CompositeRepository.CopyParsed | ferenda/compositerepository.py:304-331 | the method's new disk is CopyParsedSpec of the old one |
| CompositeRepo.TryPreferredEnds | ferenda/compositerepository.py:237-255 | the fallback loop ends with a winner that was the last instance tried and returned a truthy value, or with a fail-fast exception only when failfast is set and some instance raised it |
| CompositeRepo.TriesExactlyPreferred | ferenda/compositerepository.py:239-302 | parse tries exactly the preferred sub-repositories (basefile recorded or downloaded), in order, up to and including the first whose parse returns a truthy value or raises under fail-fast |
| CompositeRepo.PreferredUnchanged | ferenda/compositerepository.py:297-302 | files a parse writes outside the downloaded area do not change which instances are preferred |
| CompositeRepo.FailFastReraises | ferenda/compositerepository.py:245-247 | under fail-fast the first preferred instance that raises ends the loop with its exception, unless an earlier one stopped it |
| CompositeRepo.TryStep | ferenda/compositerepository.py:239-255 | one step of the fallback loop: skipped when not preferred, tried and continued when it neither wins nor fails fast |
| CompositeRepo.FallbackStep | ferenda/compositerepository.py:239-255 | the same step stated on a loop state (the prefix of classes tried and the rest of the run) |
| CompositeRepo.TryEach | ferenda/compositerepository.py:239-255 | the loop method produces the attempt TryPreferred describes, and a winner's value is truthy |
| CompositeRepo.CompositeRepository.ParseFallback | ferenda/compositerepository.py:237-255 | on the repository: the end, the disk and the log of parse calls are TryPreferred's |
| CompositeRepo.CompositeRepository.UpToDateElsewhere | ferenda/compositerepository.py:229-235 | the short-circuit test holds iff some sub-repository does not need to parse and the composite has a parsed file |
| CompositeRepo.SkipOnlyWhenUpToDate | ferenda/compositerepository.py:227-235 | parse is skipped iff it is not forced, some sub-repository does not need to parse and the composite has a parsed file; a skip calls no parse and changes no file |
| CompositeRepo.RenameHandling | ferenda/compositerepository.py:257-280 | a winning value that is a string other than the basefile is a rename: DocumentRenamedError(requested, returned), an empty parsed file is touched at the old name, and the winner's files are copied under the new name; any other winning value returns that value after copy_parsed under the requested name |
| CompositeRepo.ParseErrorNames | ferenda/compositerepository.py:281-294 | when no sub-repository succeeds, the ParseError names exactly the sub-repositories that recorded the basefile; with none, it gives the number of sub-repositories |
| CompositeRepo.Labels | ferenda/compositerepository.py:285-286 | a label is listed iff it names a sub-repository that recorded the basefile |
| CompositeRepo.CompositeRepository.Parse | ferenda/compositerepository.py:218-294 | parse: the outcome, the disk and the log are those of ParseSpec (skip, ordered fallback, rename, ParseError) |
| CompositeRepo.CompositeRepository.Finish | ferenda/compositerepository.py:257-294 | the end of parse: re-raise, ParseError, or rename and copy, as Conclude describes |
| Riksdagen.DigitsAt | ferenda/sources/legal/se/riksdagen.py:144 | the k-th character of `digits` is "0" to "9" for k below 10 and "A" onwards after, which is the digit Digit36 computes |
| Riksdagen.UrlReadsBack | ferenda/sources/legal/se/riksdagen.py:155-162 | a URL built from the prefix, the base-36 offset, a two-character code and a number splits back into exactly those parts, the offset's part being canonical and denoting the offset |
| Riksdagen.Base36RoundTrip | ferenda/sources/legal/se/riksdagen.py:152-157 | the year offset is written as a canonical base-36 numeral over "0-9A-Z", most significant digit first, that denotes exactly the offset (0 gives "") |
| Riksdagen.Base36Canonical | ferenda/sources/legal/se/riksdagen.py:152-157 | every canonical base-36 numeral is what the loop writes for its value, so the encoding is a bijection onto canonical numerals |
| Riksdagen.Base36NonZero | ferenda/sources/legal/se/riksdagen.py:155 | a non-empty canonical numeral denotes a positive number, which is why the loop writes nothing for 0 |
| Riksdagen.EncodeYear | ferenda/sources/legal/se/riksdagen.py:152-157 | the `while remainder != 0: divmod` loop produces Base36 of the offset |
| Riksdagen.DoctypeCode | ferenda/sources/legal/se/riksdagen.py:159-160 | only the proposition and committee-document types have a code, each two characters; any other type is the KeyError |
| Riksdagen.RemoteUrl | ferenda/sources/legal/se/riksdagen.py:142-162 | remote_url returns or raises what RemoteUrlSpec gives: year from before "/" (offset 1400) or before ":" (offset 1401), a missing number, a negative offset (the loop never ends), an unknown doctype, or the URL |
| Riksdagen.RemoteUrlDecodes | ferenda/sources/legal/se/riksdagen.py:142-162 | a URL returned is exactly the dokumentstatus prefix, a canonical base-36 numeral of the year offset, the two-character doctype code, the number after ":" and ".xml", so each part can be read back |
| Riksdagen.ModifyUrl | ferenda/sources/legal/se/riksdagen.py:94-98 | "https:" is put in front iff the URL starts with "//data.riksdagen.se/"; any other URL is returned unchanged |
| Riksdagen.ModifyUrlIdempotent | ferenda/sources/legal/se/riksdagen.py:94-98 | fixing a URL twice is fixing it once |
| Riksdagen.MetadataFromBasefile | ferenda/sources/legal/se/riksdagen.py:325-328 | arsutgava and lopnummer are the parts before and after the first ":" and join back to the basefile; a basefile without ":" cannot be unpacked |
| Riksdagen.MetadataRoundTrip | ferenda/sources/legal/se/riksdagen.py:327 | joining a year without ":" and a number with ":" and splitting again gives the same pair |
| Riksdagen.ElementFor | ferenda/sources/legal/se/riksdagen.py:376-380 | a block contributes an element iff its whitespace-normalised text is non-empty; the element holds that one text and is Preformatted iff the block is a "pre" |
| Riksdagen.HtmlParser | ferenda/sources/legal/se/riksdagen.py:373-381 | the loop builds Parsed of the blocks: one element per non-blank block, in input order |
| Riksdagen.ParsedAppend | ferenda/sources/legal/se/riksdagen.py:375-380 | the body of two runs of blocks is the concatenation of their bodies (the parser is a homomorphism) |
| Riksdagen.ParsedShape | ferenda/sources/legal/se/riksdagen.py:375-380 | there are never more elements than blocks and every element has exactly one non-empty line |
| Riksdagen.MoveToFront | ferenda/sources/legal/se/riksdagen.py:424 | `page.insert(0, page.pop(k))`: the picked box comes first, the boxes before it shift by one and the rest stay put |
| Riksdagen.Pick | ferenda/sources/legal/se/riksdagen.py:417-425 | on a page of more than two boxes the last box is picked if misplaced (left edge over 0.6 of the width and "Bilaga " followed by "l" or a digit), else the second to last if misplaced; none is picked otherwise |
| Riksdagen.RearrangedPermutes | ferenda/sources/legal/se/riksdagen.py:417-425 | rearranging keeps the width and the multiset of boxes, changes a page only by moving the picked box to the front, and leaves pages of at most two boxes alone |
| Riksdagen.RearrangePage | ferenda/sources/legal/se/riksdagen.py:419-425 | the `for idx in (-1, -2)` loop with its break gives Rearranged of the page |
| Riksdagen.Reader.SanitizeBody | ferenda/sources/legal/se/riksdagen.py:393-425 | for an hOCR source every page is replaced by its rearranged version, in place; other readers keep their pages |
| WsgiApp.PageRefMatch | lagen/nu/wsgiapp.py:102 | a match of `\s*s\s*(\d)` at the start of the text ends on a digit, at least two characters in, and records whether its "s" comes first |
| WsgiApp.SubPageRefAgrees | lagen/nu/wsgiapp.py:102 | where no "s" directly follows a letter, the corrected page-reference substitution is the one written |
| WsgiApp.DsSplitAsWritten | lagen/nu/wsgiapp.py:102 | as written, the "s" of "Ds" starts a page reference: "Ds 1998:5" becomes "D s. 1998:5" |
| WsgiApp.DsKept | lagen/nu/wsgiapp.py:102 | the corrected substitution leaves "Ds" followed by a number without "s" unchanged |
| WsgiApp.SubProp | lagen/nu/wsgiapp.py:103 | `re.sub(r"^prop(\s+|$)", "prop. ", q)` changes only a text starting with "prop", and keeps that start |
| WsgiApp.PadPreparatory | lagen/nu/wsgiapp.py:99-138 | the preparatory-work padding is PreparatoryPadding of the normalised reference (corrected page-reference substitution, see Findings; then the "prop" substitution and strip) |
| WsgiApp.PadSegments | lagen/nu/wsgiapp.py:104-138 | the loop over the segment list (append, extend, `segments[-1] +=`, the remove counter) gives PreparatoryPadding of the stripped text |
| WsgiApp.PreparatoryCases | lagen/nu/wsgiapp.py:104-137 | one segment gets " 1999/00:1" (remove 9); two segments: trailing "/" gets "00:1" (4), trailing ":" gets "1" (1), k digits get zeros to four and "/00:1" ((4-k)+5), anything else unchanged; three or more: a blank last segment gets " s. 1" (0), a non-digit one " 1" (1), digits nothing |
| WsgiApp.PreparatoryPaddingBounds | lagen/nu/wsgiapp.py:104-137 | the padding only appends to the reference and the remove count never exceeds what was appended; it is negative exactly for a two-segment reference whose last segment is a run of more than nine digits |
| WsgiApp.TrailingBlankSegmentUnreachable | lagen/nu/wsgiapp.py:104-129 | as written the split comes after `strip()`, so no reference with two or more segments ends in a blank segment and the " s. 1" branch is never taken |
| WsgiApp.TrailingBlankPaddedUnstripped | lagen/nu/wsgiapp.py:128-130 | what that branch was written for, per its comment: split before stripping, "Prop. 1997/98:12 " has a blank last segment and gains "s.", "1" |
| WsgiApp.NoBlankLastSegment | lagen/nu/wsgiapp.py:104 | a text that does not end in white space never splits on " " into a blank last segment |
| WsgiApp.DsPaddedAsWritten | lagen/nu/wsgiapp.py:102-135 | as written, "Ds 1998:5" is padded to "D s. 1998:5 1" with remove 1 (Findings) |
| WsgiApp.DsPaddedWhenFixed | lagen/nu/wsgiapp.py:102-126 | with the corrected substitution "Ds 1998:5" is left as it is, remove 0 |
| WsgiApp.MatchLaw | lagen/nu/wsgiapp.py:162-165 | a match is an abbreviation (case-insensitively one of the list) that starts the reference, followed by blanks and a part of digits with at most one colon that ends it |
| WsgiApp.MatchLawComplete | lagen/nu/wsgiapp.py:162 | every reference made of a listed abbreviation, blanks and such a part is matched |
| WsgiApp.LawPaddingCounts | lagen/nu/wsgiapp.py:166-190 | the remove count of a law reference is exactly the number of padded digits and colons; in paragraph mode the padding ends with " §", otherwise the padded part names a section after its colon |
| WsgiApp.PaddingFragments | lagen/nu/wsgiapp.py:168-189 | the six paddings " §", " 1 §", "", "1", ":1", " 1:1" carry 0, 1, 0, 1, 2 and 3 fragment characters, the remove counts the source gives them |
| WsgiApp.LawSection | lagen/nu/wsgiapp.py:167-189 | outside paragraph mode the padded part always has a colon followed by digits |
| WsgiApp.CutUri | lagen/nu/wsgiapp.py:199-200 | `uri[:-remove]` gives a prefix of the URI, with Python's slicing of an out-of-range or negative bound |
| WsgiApp.CutRemovesPadding | lagen/nu/wsgiapp.py:199-200 | cutting as many characters as were padded gives the unpadded URI back |
| WsgiApp.ExpandPartialRef | lagen/nu/wsgiapp.py:98-201 | a preparatory work (lower-cased prefix prop, ds, sou or dir) resolves its PreparatoryPadding, with the corrected page-reference substitution (Findings); a law reference that no abbreviation matches returns None; a matched one resolves its LawPadding; the URI is the first parse result's, or "", cut by the remove count when it is non-zero, and an empty parse is the IndexError |
| WsgiApp.MangledShape | lagen/nu/wsgiapp.py:204-217 | outside autocomplete the hit is untouched; a completed autocomplete mangle moves iri to url, drops matches, sets a description (at most 160 characters when cut from a string) and keeps every unrelated key |
| WsgiApp.MangledDescription | lagen/nu/wsgiapp.py:206-213 | a completed autocomplete mangle takes the description from `rpubl_referatrubrik` cut to 160 characters (and drops that key), else for a `#Proposition` type from `dcterms_title` with `dcterms_identifier` as label, else from the matched text cut to 160 characters; only the Proposition branch touches the label |
| WsgiApp.MangledCompletesIff | lagen/nu/wsgiapp.py:204-217 | an autocomplete mangle returns exactly when `iri`, `matches` and the keys its branch reads are present with the expected types; otherwise the source raises |
| WsgiApp.Hit.MangleResult | lagen/nu/wsgiapp.py:204-217 | the in-place edit of the hit and whether it returned without a KeyError are those of Mangled |
| DvZip.CourtAndMalnr | ferenda/sources/legal/se/dv.py:387 | the `([^_]*)_([^_\.]*)` head of a member name: the name is court + "_" + case number + rest, the court holds no "_", the case number neither "_" nor ".", and a name without "/" gives groups without "/" |
| DvZip.MatchPlain | ferenda/sources/legal/se/dv.py:387 | `re_malnr`: a match has an empty optional referat number, a ".doc" or ".docx" suffix and well-formed groups |
| DvZip.NumberAndSuffix | ferenda/sources/legal/se/dv.py:387-395 | the common tail `_?(\d*)(\.docx?)` of the three patterns yields a run of digits and ".doc" or ".docx" |
| DvZip.BeforeMarker | ferenda/sources/legal/se/dv.py:393-395 | `_?(\d*)` before "_BYTUT_" or "_TABORT_" yields digits only, and the marker really follows at the position found |
| DvZip.MatchDated | ferenda/sources/legal/se/dv.py:392-395 | `re_bytut_malnr` / `re_tabort_malnr`: a match ends in ".doc" or ".docx" and its groups are well formed (digit-only referat numbers) |
| DvZip.MatchName | ferenda/sources/legal/se/dv.py:446-451 | the pattern chosen by "BYTUT", then "TABORT", then the plain one: a match has a Word suffix and well-formed groups, without "/" when the name has none |
| DvZip.BaseName | ferenda/sources/legal/se/dv.py:445 | `os.path.split(name)[1]` holds no "/" and ends the name |
| DvZip.ZipUnpacker.constructor | ferenda/sources/legal/se/dv.py:411-415 | a fresh unpacker holds the downloaded files given, a download count of 0 and the configured cap |
| DvZip.ZipUnpacker.ProcessZipfile | ferenda/sources/legal/se/dv.py:411-512 | the loop over the archive members leaves the files, the download count and the outcome (done with its four counters, or MaxDownloadsReached) that ZipFrom gives for the old state |
| DvZip.CountIsWrites | ferenda/sources/legal/se/dv.py:427-507 | the counters only grow, and over a run the download count grows by exactly the replaced plus created files less the notices extracted |
| DvZip.CapRespected | ferenda/sources/legal/se/dv.py:503-507 | with a non-zero cap not yet reached, a run stops with MaxDownloadsReached exactly when the count has reached the cap, and otherwise stays below it |
| DvZip.OnlyTargetsChange | ferenda/sources/legal/se/dv.py:465-497 | a downloaded file in the file map that no member of the archive names is neither created, replaced nor removed (the notice extractor's own placeholder files are outside the map) |
| DvZip.StepWrites | ferenda/sources/legal/se/dv.py:427-497 | one member: the counters only grow and the count grows by the replaced and created files less its notices |
| DvZip.ApplyWrites | ferenda/sources/legal/se/dv.py:465-497 | the same for one removal, replacement, unpacking or notice extraction |
| DvZip.StepCap | ferenda/sources/legal/se/dv.py:497-507 | one member keeps the count below the cap unless it stops the run with MaxDownloadsReached at the cap |
| DvZip.ApplyCap | ferenda/sources/legal/se/dv.py:497-507 | the same for one action |
| DvZip.StepFrame | ferenda/sources/legal/se/dv.py:463-497 | one member changes only the file its basefile and suffix name |
| DvZip.ApplyFrame | ferenda/sources/legal/se/dv.py:465-493 | an action changes only the file it is about |
| DvZip.BasefileDecodes | ferenda/sources/legal/se/dv.py:455-460 | the basefile made from the groups splits at "/" into the court and the rest, and the rest at "_" into the case number and, when present, the referat number (the later one preferred) |
| DvZip.DecodeBare | ferenda/sources/legal/se/dv.py:459-460 | "court/malnr" splits back into its two parts |
| DvZip.DecodeNumbered | ferenda/sources/legal/se/dv.py:455-458 | "court/malnr_nr" splits back into court, case number and number |
| DvBody.EndsSection | ferenda/sources/legal/se/dv.py:756-763 | the section-end test fails (the source's IndexError) only where a line it indexes is empty and there is a next line |
| DvBody.ReconstructedAsWritten | ferenda/sources/legal/se/dv.py:753-768 | the reconstruction loop as written: it succeeds exactly when every section-end test does, and its sections followed by the lines still held in `currentline` are the whole newline-prefixed body; those held lines are not in the result (Findings) |
| DvBody.Reconstructed | ferenda/sources/legal/se/dv.py:753-768 | the corrected reconstruction, which keeps the last section: its sections concatenate to the whole newline-prefixed body, and it fails exactly when the loop as written fails |
| DvBody.RegroupKeepsText | ferenda/sources/legal/se/dv.py:755-767 | after any number of lines, the finished sections and `currentline` hold every line read, in order, each after a newline |
| DvBody.RegroupFails | ferenda/sources/legal/se/dv.py:755-767 | once the loop has raised it stays failed |
| DvBody.ReconstructionDropsLastSection | ferenda/sources/legal/se/dv.py:764-768 | on the lines "a", "b" (no section end) the loop as written returns no section, losing both lines; the corrected one returns "\na\nb" |
| DvBody.Reconstruct | ferenda/sources/legal/se/dv.py:753-768 | the loop with `newbody` and `currentline` returns Reconstructed |
| DvBody.Prepared | ferenda/sources/legal/se/dv.py:749-768 | a body starting with a line comes back as lines only (reconstructed when all non-"Ledamöter: " lines are shorter than 60) |
| DvBody.Renumbered | ferenda/sources/legal/se/dv.py:774 | the substitution leaves the line unchanged or inserts ". " after a leading run of one to three digits |
| DvBody.UpToNewline | ferenda/sources/legal/se/dv.py:776 | `.*` stops at the first newline: the result is a prefix without newline, followed by a newline when shorter |
| DvBody.SmushedHeading | ferenda/sources/legal/se/dv.py:776-780 | a split gives one of KÄRANDE, SVARANDE, SAKEN and a rest starting with a capital, up to the first newline, that together start the line |
| DvBody.TrailingIs | ferenda/sources/legal/se/dv.py:791-793 | the run of trailing "I" (or "i", ignoring case) is maximal |
| DvBody.SmushedMarker | ferenda/sources/legal/se/dv.py:791 | a split gives a non-empty head ending in ".", ")" or " " and a non-empty tail of only "I", together the whole line |
| DvBody.LinePieces | ferenda/sources/legal/se/dv.py:774-796 | a line becomes one or two pieces that, on a line without newline, concatenate back to it; it fails (IndexError at `rawbody[idx+1]`) only on a line with a smushed part marker |
| DvBody.Singles | ferenda/sources/legal/se/dv.py:797-801 | each piece becomes a one-line paragraph, in order |
| DvBody.SeenInIff | ferenda/sources/legal/se/dv.py:798-800 | a numeral is in `seen_delmal` exactly when some piece carried it |
| DvBody.CollectFails | ferenda/sources/legal/se/dv.py:769-803 | once the paragraph loop has raised it stays failed |
| DvBody.AddPieces | ferenda/sources/legal/se/dv.py:797-801 | the inner loop appends the pieces as paragraphs and records exactly their numerals |
| DvBody.SanitizeBody | ferenda/sources/legal/se/dv.py:739-811 | the method returns SanitizeBodySpec, built on the corrected reconstruction (Findings) |
| DvBody.AddPiecesWitnessed | ferenda/sources/legal/se/dv.py:797-801 | after the inner loop every numeral recorded has its marker paragraph |
| DvBody.AddPiecesSeen | ferenda/sources/legal/se/dv.py:797-801 | after the inner loop every marker paragraph's numeral is recorded |
| DvBody.AddListWitnessed | ferenda/sources/legal/se/dv.py:802-803 | a list chunk appended whole keeps every recorded numeral witnessed |
| DvBody.CollectMarkers | ferenda/sources/legal/se/dv.py:769-803 | after the paragraph loop the numerals recorded are exactly those of the marker paragraphs (the second half on a body of lines) |
| DvBody.FirstPartMarked | ferenda/sources/legal/se/dv.py:804-809 | for a body of lines: when the result has any part-marker paragraph, it has one for part "I" |
| DvBody.CollectSeen | ferenda/sources/legal/se/dv.py:769-803 | a numeral is recorded exactly when some piece of some line chunk is a marker for it |
| DvBody.FirstPartInserted | ferenda/sources/legal/se/dv.py:804-809 | the result is ["I"] followed by the paragraphs exactly when some piece was a part marker and none was "I", and the paragraphs alone otherwise |
| DvBody.FirstPartInsertedOnce | ferenda/sources/legal/se/dv.py:807-809 | at most one paragraph is inserted, and none when "I" was seen |
| DvBody.GlueStep | ferenda/sources/legal/se/dv.py:819-829 | the buffer, when held, is never an empty group |
| DvBody.GlueFails | ferenda/sources/legal/se/dv.py:815-829 | once the generator has raised (an empty line after a short buffer) it stays failed |
| DvBody.GlueKeepsLines | ferenda/sources/legal/se/dv.py:815-831 | with long lines kept, the groups yielded and the buffer hold every line read, in order |
| DvBody.Glued | ferenda/sources/legal/se/dv.py:813-832 | the corrected generator: its groups hold every line, in order (Findings) |
| DvBody.GlueDropsLongLine | ferenda/sources/legal/se/dv.py:825-829 | as written a line of 62 or more characters that continues nothing is never yielded; the corrected one yields it alone |
| DvBody.GlueShortlines | ferenda/sources/legal/se/dv.py:813-832 | the loop with `buffer` returns Glued |
| DvMeta.RunLen | ferenda/sources/legal/se/dv.py:1160-1165 | a greedy `\d+` / `\w+` / `[A-ZÅÄÖ]+` run: a prefix of class characters not followed by one |
| DvMeta.RunLenOf | ferenda/sources/legal/se/dv.py:1160-1165 | the run of a class string followed by a non-class character is exactly that string |
| DvMeta.UntilLen | ferenda/sources/legal/se/dv.py:1165 | a greedy `[^\d]*`: a prefix without digits followed by a digit or the end |
| DvMeta.UntilLenOf | ferenda/sources/legal/se/dv.py:1165 | the `[^\d]*` before a digit is exactly the digit-free string in front of it |
| DvMeta.Skip | ferenda/sources/legal/se/dv.py:1162 | an optional character `c?` takes that character or nothing |
| DvMeta.BasefileMatchSound | ferenda/sources/legal/se/dv.py:1160-1181 | a match of `(\w+)/(\d+)-(\d+)` gives a non-empty word type, digit year and digit ordinal that, as "type/year-ordinal", start the basefile |
| DvMeta.BasefileMatchComplete | ferenda/sources/legal/se/dv.py:1160-1181 | every "type/year-ordinal" basefile is matched with exactly those groups |
| DvMeta.RefMatchShape | ferenda/sources/legal/se/dv.py:1164-1241 | a Referat "TYPE year<non-digits>ordinal" is matched back into its type, year and ordinal |
| DvMeta.PageTailDocumented | ferenda/sources/legal/se/dv.py:1162 | `s\.? ?(\d+) *` on "s 567 (…" gives the page and the rest from "(" |
| DvMeta.NjaPageDocumented | ferenda/sources/legal/se/dv.py:1162 | `NJA ?(\d+) ?s\.? ?(\d+) *` on "NJA 2008 s 567 (…" gives year and page |
| DvMeta.OrdinalLeadDocumented | ferenda/sources/legal/se/dv.py:1162 | ` ?(?:NJA|) ?[ :]?` takes "NJA " in front of the ordinal's digits |
| DvMeta.OrdinalGroupsDocumented | ferenda/sources/legal/se/dv.py:1162 | `(\d+) ?: ?(\d+)` on "2008:86)" gives both groups |
| DvMeta.NjaOrdinalDocumented | ferenda/sources/legal/se/dv.py:1162 | the parenthesised part "(NJA 2008:86)" gives both ordinal groups |
| DvMeta.NjaMatchDocumented | ferenda/sources/legal/se/dv.py:1161-1225 | the documented form "NJA 2008 s 567 (NJA 2008:86)" is matched into its four groups |
| DvMeta.CaseNumberList | ferenda/sources/legal/se/dv.py:1201-1209 | the step-3 method returns CaseNumbers |
| DvMeta.KeepStep | ferenda/sources/legal/se/dv.py:1206-1208 | each piece adds its stripped self when not blank, and nothing otherwise |
| DvMeta.KeepNonBlank | ferenda/sources/legal/se/dv.py:1205-1209 | the loop over the pieces returns KeepStripped of them |
| DvMeta.LocalId | ferenda/sources/legal/se/dv.py:1213-1219 | `_localid` exists exactly when there is a non-empty case-number list or a non-empty Domsnummer; it is the case numbers when there are any, is never empty, and its absence is a ParseError |
| DvMeta.SanitizeMetadata | ferenda/sources/legal/se/dv.py:1159-1252 | the method returns Sanitize (steps 0 to 6) |
| DvMeta.LacksNotContains | ferenda/sources/legal/se/dv.py:1228-1240 | a string lacking a character of " not " does not contain it |
| DvMeta.LacksRender | ferenda/sources/legal/se/dv.py:1166-1171 | a rendered Referat holds no "o" (so never " not "), and no "J" for ADO and MDO (so never "NJA") |
| DvMeta.CanonicalReferatIdempotent | ferenda/sources/legal/se/dv.py:1240-1246 | canonicalising a Referat already in canonical form gives it back |
| DvMeta.LabelFacts | ferenda/sources/legal/se/dv.py:1166-1171 | the type label of a template is capitals and its infix has no digits; rendering the label picks the same template |
| DvMeta.TemplateTypeClasses | ferenda/sources/legal/se/dv.py:1182 | "ADO" and "MDO" are word characters and capitals |
| DvMeta.MissingReferatRebuilt | ferenda/sources/legal/se/dv.py:1177-1246 | a missing Referat with an ADO/MDO basefile comes out as the template for that basefile, with no NJA ordinal |
| DvMeta.NjaReferatSplit | ferenda/sources/legal/se/dv.py:1228-1246 | "NJA a s b (NJA c:d)" comes out as "NJA a s. b" with `_nja_ordinal` "NJA c:d" |
| DvMeta.SanitizeOk | ferenda/sources/legal/se/dv.py:1172-1252 | with a court and a Domsnummer present, the outcome is decided by steps 1, 5 and 6 alone, in that order |
| DvMeta.NjaStepDocumented | ferenda/sources/legal/se/dv.py:1228-1232 | step 5 on the documented form gives "NJA a s b" and "NJA c:d" |
| DvMeta.NjaRefLacks | ferenda/sources/legal/se/dv.py:1228-1240 | the documented NJA form holds no "o", so it is no notis |
| DvMeta.CanonicalPageRef | ferenda/sources/legal/se/dv.py:1240-1246 | step 6 turns "NJA a s b" into "NJA a s. b" |
| DvMeta.EndsStripped | ferenda/sources/legal/se/dv.py:1207-1208 | stripping a string without white space or separator at its ends gives it back |
| DvMeta.PiecesClean | ferenda/sources/legal/se/dv.py:1206 | no piece of `re.split("och|,|;|\s", …)` holds a separator |
| DvMeta.KeepClean | ferenda/sources/legal/se/dv.py:1206-1208 | every kept case number is non-empty and free of separators |
| DvMeta.SplitLacks | ferenda/sources/legal/se/dv.py:1203 | no part of a split at a character holds that character |
| DvMeta.JoinLacks | ferenda/sources/legal/se/dv.py:1203 | joining parts that lack a character gives a string that lacks it |
| DvMeta.CaseNumbersClean | ferenda/sources/legal/se/dv.py:1201-1209 | "Ö ", "B " or "T " at the start gives one case number without spaces; otherwise every case number is non-empty and free of separators |
| DvMeta.WordThrough | ferenda/sources/legal/se/dv.py:1206 | a piece without separator or "och" is read whole |
| DvMeta.SepStep | ferenda/sources/legal/se/dv.py:1206 | a separator ends the current piece |
| DvMeta.SepThrough | ferenda/sources/legal/se/dv.py:1206-1208 | a run of separators contributes only blank pieces |
| DvMeta.PiecesOfJoin | ferenda/sources/legal/se/dv.py:1206-1208 | case numbers joined by separators are split and kept back into the same list |
| DvMeta.KeptPlain | ferenda/sources/legal/se/dv.py:1207-1208 | a plain case number is kept as it is |
| DvMeta.JoinStart | ferenda/sources/legal/se/dv.py:1206 | a join starts with its first part, then the separator or nothing |
| DvMeta.NotSingleCaseJoin | ferenda/sources/legal/se/dv.py:1202 | a list not starting with "Ö", "B" or "T" as a whole part, joined by separators, does not take the single-case branch |
| DvMeta.CaseNumbersOfJoin | ferenda/sources/legal/se/dv.py:1201-1209 | step 3 gives back the plain case numbers a Målnummer was joined from |
| DvSokord.TermAt | ferenda/sources/legal/se/dv.py:1306 | the alternative of the first group that matches is one of the listed main keywords, a prefix of the text, ending in neither blank nor "-" |
| DvSokord.Match | ferenda/sources/legal/se/dv.py:1306 | a match at a position ends the first group after a character that is neither blank nor "-" |
| DvSokord.MatchPos | ferenda/sources/legal/se/dv.py:1306 | `re.sub` rewrites at a position where the regex matches |
| DvSokord.MatchPosLeftmost | ferenda/sources/legal/se/dv.py:1306 | that position is the leftmost one; with no position the regex matches nowhere |
| DvSokord.TermSubFirstPart | ferenda/sources/legal/se/dv.py:1305-1308 | on an item without " - ", after the rewrite the first " - " part is exactly the text up to the main keyword |
| DvSokord.TermSubRewrites | ferenda/sources/legal/se/dv.py:1306 | the rewrite keeps the text up to the end of the main keyword and puts " - " and the sub-keyword group after it |
| DvSokord.SplitBeforeMark | ferenda/sources/legal/se/dv.py:1308 | splitting the rewritten item at " - " gives that keyword text first |
| DvSokord.NoMarkBefore | ferenda/sources/legal/se/dv.py:1308 | no " - " occurs before the one the rewrite inserted |
| DvSokord.NonWordLen | ferenda/sources/legal/se/dv.py:1281 | `^\W+` is the maximal run of non-word characters |
| DvSokord.Capitalize | ferenda/sources/legal/se/dv.py:1278-1282 | the result is empty exactly when the text holds no word character; otherwise it starts with a word character that is not lower case and its rest is the text's tail |
| DvSokord.PartStep | ferenda/sources/legal/se/dv.py:1309-1319 | each part goes capitalised to the keywords unless it is a probable description, which goes to the descriptions |
| DvSokord.ItemKeywords | ferenda/sources/legal/se/dv.py:1307-1320 | the loop over one item's parts returns KeywordsOf and DescsOf of them |
| DvSokord.PartsPartitioned | ferenda/sources/legal/se/dv.py:1314-1319 | every part goes to exactly one of the two lists |
| DvSokord.DescsOfIff | ferenda/sources/legal/se/dv.py:1284-1319 | an item yields a description exactly when one of its parts is a probable description (50 characters or more, not whitelisted) |
| DvSokord.KeywordsCapitalized | ferenda/sources/legal/se/dv.py:1315 | every keyword is empty or starts with a word character that is not lower case |
| DvSokord.OneTuplePerItem | ferenda/sources/legal/se/dv.py:1295-1320 | there is one tuple per item that is not blank once its space is normalised |
| DvSokord.DescsIff | ferenda/sources/legal/se/dv.py:1295-1321 | descriptions are collected exactly when some item has a probable description |
| DvSokord.InsertByLen | ferenda/sources/legal/se/dv.py:1326 | insertion keeps exactly the elements and adds the one inserted |
| DvSokord.SortByLen | ferenda/sources/legal/se/dv.py:1326 | `descs.sort(key=len)` permutes the descriptions |
| DvSokord.InsertSorted | ferenda/sources/legal/se/dv.py:1326 | inserting into a list sorted by length keeps it sorted |
| DvSokord.SortByLenSorted | ferenda/sources/legal/se/dv.py:1326 | the sorted descriptions are ordered by length |
| DvSokord.Prune | ferenda/sources/legal/se/dv.py:1327 | the last description is always kept |
| DvSokord.PruneMembers | ferenda/sources/legal/se/dv.py:1327 | a description is kept exactly when it is last or not a substring of the next one |
| DvSokord.LongestKept | ferenda/sources/legal/se/dv.py:1326-1327 | after sorting and pruning the last description is at least as long as any, and every kept one was collected |
| DvSokord.Delimiter | ferenda/sources/legal/se/dv.py:1291-1294 | items are split at "," exactly for a basefile starting "XXX/", else at ";" |
| DvSokord.ItemStep | ferenda/sources/legal/se/dv.py:1295-1320 | each item adds its keyword tuple, when not blank, and its descriptions |
| DvSokord.SanitizeSokord | ferenda/sources/legal/se/dv.py:1277-1329 | the method returns the keyword tuples, or raises KeywordContainsDescription with them and the pruned descriptions, as Sokord says |
| DvSokord.SokordTuples | ferenda/sources/legal/se/dv.py:1295-1320 | the result has one tuple per non-blank item |
| DvSokord.SokordRaisesIff | ferenda/sources/legal/se/dv.py:1321-1329 | KeywordContainsDescription is raised exactly when some item holds a probable description |
| DvSokord.SokordLongest | ferenda/sources/legal/se/dv.py:1326-1328 | the descriptions raised are non-empty, end with one at least as long as every description found, and were all found |
| DvParser.MarkerTail | ferenda/sources/legal/se/dv.py:1838 | what follows the numeral in `(I{1,3}|IV)\.? ?(|\(\w+\-\d+\))$` yields an empty or parenthesised case number that ends the chunk |
| DvParser.PartMarker | ferenda/sources/legal/se/dv.py:1838 | a part marker's numeral is one of I, II, III, IV and starts the chunk |
| DvParser.OnlyIs | ferenda/sources/legal/se/dv.py:1838 | `I{1,3}` spells I, II or III |
| DvParser.IsDelmal | ferenda/sources/legal/se/dv.py:1830-1844 | `is_delmal` reports a numeral among I to IV only for a chunk (stripped when peeked) shorter than 20 characters |
| DvParser.Constitution | ferenda/sources/legal/se/dv.py:2083-2104 | the bench list gets one member per entry that is not a bare "ordförande" or "referent" |
| DvParser.Presiding | ferenda/sources/legal/se/dv.py:2086-2099 | an entry starting "ordförande " or "ordf " gives a member with a position and a title slot |
| DvParser.IRunOf | ferenda/sources/legal/se/dv.py:1838 | the run of "I" of a numeral followed by no "I" is the numeral |
| DvParser.TailOf | ferenda/sources/legal/se/dv.py:1838 | an optional ".", an optional " " and a case number read back as that case number |
| DvParser.RunMarker | ferenda/sources/legal/se/dv.py:1838 | I, II or III followed by a matching rest is a marker with that numeral |
| DvParser.FourMarker | ferenda/sources/legal/se/dv.py:1838 | "IV" followed by a matching rest is a marker with numeral IV |
| DvParser.PartMarkerComplete | ferenda/sources/legal/se/dv.py:1838 | every chunk of the form numeral, optional ".", optional " ", optional case number is recognised with that numeral and case number |
| DvParser.TailForm | ferenda/sources/legal/se/dv.py:1838 | what the tail accepts is an optional ".", an optional " " and the case number |
| DvParser.TailMarks | ferenda/sources/legal/se/dv.py:1838 | a numeral followed by a matching tail is of the marker's form |
| DvParser.PartMarkerSound | ferenda/sources/legal/se/dv.py:1838 | every recognised marker has that form |
| DvParser.OrderedComplete | ferenda/sources/legal/se/dv.py:2221-2232 | "18. Blahonga" and "18 Blahonga" are ordered paragraph "18" |
| DvParser.ConstitutionKeepsGoing | ferenda/sources/legal/se/dv.py:2083-2102 | once the list has a member, every later entry is handled |
| DvParser.ConstitutionFails | ferenda/sources/legal/se/dv.py:2083-2085 | `parse_constitution` fails on `res[-1]` exactly when the first entry is a bare "ordförande" or "referent" |
| DvParser.TransitionDomskal | ferenda/sources/legal/se/dv.py:2234-2251 | a domskäl is pushed exactly while a betänkande is on the state stack, with the constructor whose state it names; otherwise the state is popped |
| DvParser.TargetsAgreeWithConstructors | ferenda/sources/legal/se/dv.py:2290-2345 | every table entry that calls a constructor pushes the state that constructor's `@newstate` names |
| DvParser.ParagraphsEverywhere | ferenda/sources/legal/se/dv.py:2279-2344 | every reachable state has a transition for `is_paragraph`, the last recognizer tried |
| DvParser.DoneUnreachable | ferenda/sources/legal/se/dv.py:2309-2314 | the `"__done__"` rows are dead: no transition pushes that state |
| DvParser.HasOrderedParas | ferenda/sources/legal/se/dv.py:2277-2348 | only HDO and MDO reports, in the default configuration, have ordered paragraphs |
| DvParser.DefaultCourt | ferenda/sources/legal/se/dv.py:2355-2356 | a default court is set exactly for the PMD and MMD collections |
| DvParser.Node.constructor | ferenda/sources/legal/se/dv.py:2708 | a new node has its kind and no URI |
| DvParser.Separator | ferenda/sources/legal/se/dv.py:2718-2726 | a fragment starts with "#" exactly when the URI has none yet, with "/" after |
| DvParser.NodeUri | ferenda/sources/legal/se/dv.py:2709-2732 | a node gets a URI, extending the state's, exactly when it is a delmål, an ordered paragraph, or an instans with a court |
| DvParser.ChildState | ferenda/sources/legal/se/dv.py:2709-2734 | the state for the children keeps the basefile, is None exactly for a node kind `construct_id` does not know, and when it changes its URI is the node's |
| DvParser.ConstructId | ferenda/sources/legal/se/dv.py:2708-2734 | the method returns ChildState and sets the node's URI to NodeUri when there is one, leaving it otherwise |
| DvParser.OrderedParagraphUri | ferenda/sources/legal/se/dv.py:2725-2728 | an ordered paragraph's URI is the section's with a "P" fragment, and the state is handed on unchanged |
| DvParser.InstansOpensFragment | ferenda/sources/legal/se/dv.py:2712-2722 | after an instans with a court the state URI has a fragment |
| DvParser.OrdinalsDistinguish | ferenda/sources/legal/se/dv.py:2711-2727 | under one section, ordered paragraphs (and delmål) with different ordinals get different URIs |
| DvParser.NestedParagraphUri | ferenda/sources/legal/se/dv.py:2709-2734 | delmål d, instans c, paragraph o under a fragment-free URI give "uri#d/slug/Po" |
| MyndBasefile.PieceLen | ferenda/sources/legal/se/myndfskr.py:211 | the run before the first separator of `[ \./:_-]` holds no separator and stops at one |
| MyndBasefile.SepLen | ferenda/sources/legal/se/myndfskr.py:211 | a separator run is maximal and takes at least the first separator |
| MyndBasefile.Segments | ferenda/sources/legal/se/myndfskr.py:211 | `re.split('[ \./:_-]+', …)` gives at least one segment and no segment holds a separator |
| MyndBasefile.SegmentsOne | ferenda/sources/legal/se/myndfskr.py:211 | a text without separators is one segment |
| MyndBasefile.PieceLenCons | ferenda/sources/legal/se/myndfskr.py:211 | the first piece of "a, separator, rest" is a |
| MyndBasefile.SepLenOne | ferenda/sources/legal/se/myndfskr.py:211 | one separator before a non-separator is a run of length one |
| MyndBasefile.SegmentsCons | ferenda/sources/legal/se/myndfskr.py:211 | a piece, one separator and a rest: the piece is the first segment and the rest gives the others |
| MyndBasefile.SegmentsThree | ferenda/sources/legal/se/myndfskr.py:211 | three pieces joined by single separators give those three segments |
| MyndBasefile.Renumber | ferenda/sources/legal/se/myndfskr.py:213 | `str(int(piece))` succeeds exactly when `int` accepts the piece |
| MyndBasefile.SanitizedListed | ferenda/sources/legal/se/myndfskr.py:210-226 | every sanitised basefile starts with one of the repository's collections and "/" |
| MyndBasefile.AssembleRejects | ferenda/sources/legal/se/myndfskr.py:213-221 | ValueError is raised exactly when `int` rejects the last segment or the segment count is not 2, 3, or 4 with "fs" second |
| MyndBasefile.LowerFixed | ferenda/sources/legal/se/myndfskr.py:211 | `lower()` leaves a string without capitals alone |
| MyndBasefile.LowerAppend | ferenda/sources/legal/se/myndfskr.py:211 | `lower()` works character by character |
| MyndBasefile.RenumberDigits | ferenda/sources/legal/se/myndfskr.py:213 | a digit string is renumbered to the decimal rendering of its value |
| MyndBasefile.CanonicalRoundTrip | ferenda/sources/legal/se/myndfskr.py:212-213 | a number without leading zeros is rendered as itself |
| MyndBasefile.LeadingDigitPositive | ferenda/sources/legal/se/myndfskr.py:212-213 | such a number of two or more digits is at least 10 |
| MyndBasefile.LowerNoSep | ferenda/sources/legal/se/myndfskr.py:211 | lower-casing keeps a string free of separators |
| MyndBasefile.ThreeSegments | ferenda/sources/legal/se/myndfskr.py:211 | collection, separator, year ":" number split into those three segments |
| MyndBasefile.AssembleThree | ferenda/sources/legal/se/myndfskr.py:216-217 | three segments give "a/y:n", the number without leading zeros |
| MyndBasefile.AssembleTwo | ferenda/sources/legal/se/myndfskr.py:214-215 | two segments give "y:n", the number without leading zeros |
| MyndBasefile.SanitizeAssembled | ferenda/sources/legal/se/myndfskr.py:222-226 | an assembled basefile is returned when it names a collection, otherwise prefixed with the first collection |
| MyndBasefile.SanitizeThree | ferenda/sources/legal/se/myndfskr.py:210-226 | "AFS 2014:039" (a listed collection, any separator, year:number) becomes "afs/2014:39" |
| MyndBasefile.SanitizeThreeLower | ferenda/sources/legal/se/myndfskr.py:210-226 | the same for a collection already in lower case |
| MyndBasefile.ListedPrefix | ferenda/sources/legal/se/myndfskr.py:222-223 | a listed collection and "/" start a listed basefile |
| MyndBasefile.SanitizeThreeUnlisted | ferenda/sources/legal/se/myndfskr.py:222-224 | an unlisted first segment gets the first collection in front |
| MyndBasefile.SanitizeCanonical | ferenda/sources/legal/se/myndfskr.py:210-226 | a canonical "collection/year:number" is sanitised to itself (idempotence) |
| MyndBasefile.YearNumberSegments | ferenda/sources/legal/se/myndfskr.py:211 | "year:number" splits into its two segments |
| MyndBasefile.YearNumberUnlisted | ferenda/sources/legal/se/myndfskr.py:222-223 | a "year:number" never starts with a collection and "/" |
| MyndBasefile.SanitizeYearNumber | ferenda/sources/legal/se/myndfskr.py:214-224 | "2014:039" becomes "<first collection>/2014:39" |
| MyndBasefile.Collections | ferenda/sources/legal/se/myndfskr.py:207-208 | every repository has at least one collection (`[alias]` or its override's list) |
| MyndBasefile.FieldLen | ferenda/sources/legal/se/myndfskr.py:1496 | the run before the first " " or "/" is maximal |
| MyndBasefile.Fields | ferenda/sources/legal/se/myndfskr.py:1496 | `re.split("[ /]", …)` gives at least one field |
| MyndBasefile.FieldsCons | ferenda/sources/legal/se/myndfskr.py:1496 | a field and one separator: the field is first |
| MyndBasefile.FieldsOne | ferenda/sources/legal/se/myndfskr.py:1496 | a text without " " or "/" is one field |
| MyndBasefile.EifsPrepare | ferenda/sources/legal/se/myndfskr.py:1221-1223 | EIFS's override turns "EIFS_y_n" into "EIFS/y:n" |
| MyndBasefile.EifsFirstUnderscore | ferenda/sources/legal/se/myndfskr.py:1222 | the first `replace("_", "/", 1)` rewrites only the first "_" |
| MyndBasefile.EifsSecondUnderscore | ferenda/sources/legal/se/myndfskr.py:1223 | the second rewrites the remaining "_" to ":" |
| MyndBasefile.LowerEifs | ferenda/sources/legal/se/myndfskr.py:211 | "EIFS" lower-cases to "eifs" |
| MyndBasefile.EifsUnderscores | ferenda/sources/legal/se/myndfskr.py:1221-1224 | EIFS: "EIFS_2013_01" becomes "eifs/2013:1" |
| MyndBasefile.EifsName | ferenda/sources/legal/se/myndfskr.py:1216 | "EIFS" is one segment whose lower case is EIFS's collection |
| MyndBasefile.DigitsPlain | ferenda/sources/legal/se/myndfskr.py:211 | digits are neither separators nor capitals |
| MyndBasefile.LowerElsakfs | ferenda/sources/legal/se/myndfskr.py:1275 | "ELSÄK-FS" lower-cases to "elsäk-fs" |
| MyndBasefile.LowerElsakfsPrefix | ferenda/sources/legal/se/myndfskr.py:1275 | lower-casing "ELSÄK-FS" before a lower-case rest changes only the prefix |
| MyndBasefile.ReplaceElsakfs | ferenda/sources/legal/se/myndfskr.py:1275 | the replacement rewrites exactly the leading "elsäk-fs" |
| MyndBasefile.ElsakfsPrepare | ferenda/sources/legal/se/myndfskr.py:1274-1275 | "ELSÄK-FS y:n" becomes "elsakfs y:n" |
| MyndBasefile.ElsakfsName | ferenda/sources/legal/se/myndfskr.py:1274-1276 | ELSAKFS: "ELSÄK-FS 2016:4" becomes "elsakfs/2016:4" |
| MyndBasefile.ElsakfsSlug | ferenda/sources/legal/se/myndfskr.py:1227 | "elsakfs" is one lower-case segment and ELSAKFS's collection |
| MyndBasefile.FffsColonAlwaysApplied | ferenda/sources/legal/se/myndfskr.py:1313-1315 | as written the ":" is inserted after four characters of any basefile longer than four, so "201412:5" becomes "fffs/2014/12:5" (Findings) |
| MyndBasefile.FffsAsWrittenShape | ferenda/sources/legal/se/myndfskr.py:1313-1314 | as written "d:n" with more than four digits d gets a second ":" after the fourth digit |
| MyndBasefile.FffsDigitLead | ferenda/sources/legal/se/myndfskr.py:1308 | no FFFS collection starts with a digit, so a basefile starting with one is unlisted |
| MyndBasefile.DigitLeadUnlisted | ferenda/sources/legal/se/myndfskr.py:222-223 | a basefile starting with a digit names no collection that does not |
| MyndBasefile.FffsColonKept | ferenda/sources/legal/se/myndfskr.py:1310-1315 | as intended, a basefile "d:n" keeps its digits: "fffs/d:n" |
| MyndBasefile.FffsDigits | ferenda/sources/legal/se/myndfskr.py:1310-1315 | an all-digit basefile "201412" becomes "fffs/2014:12", and there the code as written and as intended agree |
| MyndBasefile.LvfsUnchanged | ferenda/sources/legal/se/myndfskr.py:1472-1474 | a basefile without "HSLFS" or "HLFS" is passed on unchanged |
| MyndBasefile.OrdinalEnds | ferenda/sources/legal/se/myndfskr.py:1495 | "<u> <o>/<y>" with a four-digit year matches `\d{1,2}/\d{4}$` |
| MyndBasefile.OrdinalFields | ferenda/sources/legal/se/myndfskr.py:1496 | "<u> <o>/<y>" splits into its three fields |
| MyndBasefile.MigrfsPrepare | ferenda/sources/legal/se/myndfskr.py:1491-1497 | "MIGRFS 04/2017" becomes "MIGRFS 2017:4" |
| MyndBasefile.MigrfsOrdinalOf | ferenda/sources/legal/se/myndfskr.py:1495-1497 | an ordinal/year basefile of three fields is reordered to year ":" ordinal, the ordinal renumbered |
| MyndBasefile.MigrfsOldStyle | ferenda/sources/legal/se/myndfskr.py:1491-1498 | MIGRFS: "MIGRFS 04/2017" becomes "migrfs/2017:4" |
| MyndBasefile.NfsSpaced | ferenda/sources/legal/se/myndfskr.py:1612-1614 | NFS: "NFS 2016:5" (or "SNFS 1994:2") becomes "nfs/2016:5" |
| MyndBasefile.NfsPrepare | ferenda/sources/legal/se/myndfskr.py:1613 | NFS's override turns the space after the collection into "/" |
| MyndIdentify.RenamedLabelNotPlain | ferenda/sources/legal/se/myndfskr.py:352-358 | each of the five renamed altLabels holds a hyphen or a lower-case letter, so no upper-cased fragment is one |
| MyndIdentify.RenamedLabelsDistinct | ferenda/sources/legal/se/myndfskr.py:354-358 | the five renamed fragments get five different altLabels |
| MyndIdentify.AltLabelInjective | ferenda/sources/legal/se/myndfskr.py:352-358 | two upper-cased fragments with the same altLabel are the same fragment |
| MyndIdentify.UriBasefileShape | ferenda/sources/legal/se/myndfskr.py:403-423 | a basefile from a URI has no hyphen and starts with one of the collections, after "konsolidering/" exactly when the URI names a consolidated version |
| MyndIdentify.CanonicalChars | ferenda/sources/legal/se/myndfskr.py:403-423 | a canonical "c/y:n" has its one "/" after the collection and no hyphen |
| MyndIdentify.OneSlashNotConsolidated | ferenda/sources/legal/se/myndfskr.py:413 | a text with a single "/" does not contain "/konsolidering/" |
| MyndIdentify.UriOfCanonical | ferenda/sources/legal/se/myndfskr.py:403-423 | the URI of "sjvfs/2014:9" gives back the basefile "sjvfs/2014:9" |
| MyndIdentify.ConsolidationAfter | ferenda/sources/legal/se/myndfskr.py:415 | in "c/y:n/konsolidering/DATE" the marker is found right after the act's basefile |
| MyndIdentify.UriOfConsolidated | ferenda/sources/legal/se/myndfskr.py:403-423 | "afs/2011:19/konsolidering/2018-04-17" gives "konsolidering/afs/2011:19" |
| MyndIdentify.ConsolidatedKept | ferenda/sources/legal/se/myndfskr.py:419-423 | a hyphen-free consolidated basefile starting with a collection is kept |
| MyndIdentify.YearNumberParts | ferenda/sources/legal/se/myndfskr.py:394 | "y:n" splits at its first ":" into year edition and serial number |
| MyndIdentify.TwoSegments | ferenda/sources/legal/se/myndfskr.py:366 | "c/rest" splits at "/" into the collection and the rest |
| MyndIdentify.MetadataOfBasefile | ferenda/sources/legal/se/myndfskr.py:361-395 | "c/y:n" gives the altLabel of the upper-cased collection, year edition y and serial number n, and consolidates nothing |
| MyndIdentify.YearNumberNoSlash | ferenda/sources/legal/se/myndfskr.py:391 | "y:n" holds no "/" |
| MyndIdentify.ConsolidatedSegments | ferenda/sources/legal/se/myndfskr.py:366-369 | "konsolidering/c/rest" splits into three segments, and after the first "/" is the consolidated basefile |
| MyndIdentify.MetadataOfConsolidated | ferenda/sources/legal/se/myndfskr.py:366-395 | "konsolidering/c/y:n" consolidates "c/y:n", names no collection, and has year edition y and serial number n |
| MyndSosfs.SpaceRun | ferenda/sources/legal/se/myndfskr.py:2600 | `\s+` is the maximal run of white space |
| MyndSosfs.NumberAt | ferenda/sources/legal/se/myndfskr.py:2600 | `(\d+):(\d+)` gives digit year and number, and only on a text with a ":" |
| MyndSosfs.PrefixLen | ferenda/sources/legal/se/myndfskr.py:2600 | "SOSFS\s+" / "HSLF-FS\s+" takes the literal and at least one space |
| MyndSosfs.MatchAt | ferenda/sources/legal/se/myndfskr.py:2600 | a match at a position gives digit year and number, and only where there is a ":" |
| MyndSosfs.FreeSuffix | ferenda/sources/legal/se/myndfskr.py:2600 | a text without ":" has none in any suffix |
| MyndSosfs.Search | ferenda/sources/legal/se/myndfskr.py:2600 | `re.search` finds the leftmost position where the pattern matches, and none when it matches nowhere |
| MyndSosfs.GuessFs | ferenda/sources/legal/se/myndfskr.py:2603-2609 | a bare number gets a collection exactly when its year is not 2015 |
| MyndSosfs.SanitizedSosfsListed | ferenda/sources/legal/se/myndfskr.py:2589-2610 | every basefile SOSFS sanitises names "hslffs" or "sosfs" |
| MyndSosfs.FromMatchListed | ferenda/sources/legal/se/myndfskr.py:2602-2610 | a basefile built from a match names one of SOSFS's collections |
| MyndSosfs.FoundListed | ferenda/sources/legal/se/myndfskr.py:2592-2610 | every basefile found in a link text names one of SOSFS's collections |
| MyndSosfs.NoColonNoNumber | ferenda/sources/legal/se/myndfskr.py:2600-2601 | a link text without ":" names no basefile |
| MyndSosfs.NumberWord | ferenda/sources/legal/se/myndfskr.py:2596 | "y:n" holds no white space |
| MyndSosfs.NumberRuns | ferenda/sources/legal/se/myndfskr.py:2600 | the digit runs of "y:n" are y and n |
| MyndSosfs.NumberAtYear | ferenda/sources/legal/se/myndfskr.py:2600 | "y:n" matches `(\d+):(\d+)` with those groups |
| MyndSosfs.MatchBare | ferenda/sources/legal/se/myndfskr.py:2600 | a bare "y:n" matches with an empty collection group |
| MyndSosfs.MatchNamed | ferenda/sources/legal/se/myndfskr.py:2600 | "SOSFS y:n" and "HSLF-FS y:n" match with the collection group |
| MyndSosfs.PrefixSpace | ferenda/sources/legal/se/myndfskr.py:2600 | the literal and one space before a non-space take exactly that |
| MyndSosfs.SearchStart | ferenda/sources/legal/se/myndfskr.py:2600 | a pattern that matches at the start is found there |
| MyndSosfs.SanitizeNamed | ferenda/sources/legal/se/myndfskr.py:210-226 | a listed collection, a space and "y:n" are sanitised to "collection/y:n" |
| MyndSosfs.SanitizeSosfs | ferenda/sources/legal/se/myndfskr.py:2610 | "SOSFS y:n" becomes "sosfs/y:n" |
| MyndSosfs.HslfName | ferenda/sources/legal/se/myndfskr.py:2590 | "HSLF-FS" lower-cases to "hslf-fs", whose "fs" form names "hslffs" |
| MyndSosfs.LowerNameTail | ferenda/sources/legal/se/myndfskr.py:211 | lower-casing "u y:n" changes only u |
| MyndSosfs.SegmentsFour | ferenda/sources/legal/se/myndfskr.py:211 | "a-b y:n" splits into four segments |
| MyndSosfs.FourSegments | ferenda/sources/legal/se/myndfskr.py:211 | the same after lower-casing "HSLF-FS y:n" |
| MyndSosfs.LowerFour | ferenda/sources/legal/se/myndfskr.py:211 | lower-casing "HSLF-FS y:n" gives "hslf-fs y:n" |
| MyndSosfs.AssembleFour | ferenda/sources/legal/se/myndfskr.py:218-219 | four segments with "fs" second give "afs/y:n" without the hyphen |
| MyndSosfs.SanitizeFour | ferenda/sources/legal/se/myndfskr.py:210-226 | a hyphenated "-fs" collection is sanitised to its joined name |
| MyndSosfs.SanitizeHslf | ferenda/sources/legal/se/myndfskr.py:2610 | "HSLF-FS y:n" becomes "hslffs/y:n" |
| MyndSosfs.BareText | ferenda/sources/legal/se/myndfskr.py:2593-2602 | a bare "y:n" link text is the match with an empty collection group |
| MyndSosfs.BareBefore2015 | ferenda/sources/legal/se/myndfskr.py:2603-2610 | a bare number before 2015 is a SOSFS basefile |
| MyndSosfs.BareAfter2015 | ferenda/sources/legal/se/myndfskr.py:2606-2610 | a bare number after 2015 is an HSLF-FS basefile |
| MyndSosfs.Bare2015Raises | ferenda/sources/legal/se/myndfskr.py:2608-2609 | a bare number of 2015 raises ValueError |
| MyndSosfs.NamedText | ferenda/sources/legal/se/myndfskr.py:2593-2602 | "SOSFS y:n" / "HSLF-FS y:n" link texts are matched with their collection |
| MyndSosfs.NamedNormal | ferenda/sources/legal/se/myndfskr.py:2596 | space normalisation leaves such a text alone |
| MyndSosfs.NameWord | ferenda/sources/legal/se/myndfskr.py:2600 | the two collection names hold no white space |
| MyndSosfs.NamedSosfs | ferenda/sources/legal/se/myndfskr.py:2592-2610 | the link text "SOSFS y:n" names "sosfs/y:n" |
| MyndSosfs.NamedHslf | ferenda/sources/legal/se/myndfskr.py:2592-2610 | the link text "HSLF-FS y:n" names "hslffs/y:n" |
| MyndMeta.MetadataProps | ferenda/sources/legal/se/myndfskr.py:361-395 | the dict `metadata_from_basefile` returns holds the year edition and serial number, and no title, identifier or authorisation |
| MyndMeta.PrefixNotContains | ferenda/sources/legal/se/myndfskr.py:648-649 | a prefix of a text without a phrase does not contain it |
| MyndMeta.SplitFirst | ferenda/sources/legal/se/myndfskr.py:648-649 | `split(sep)[0]` is a prefix without sep when sep occurs |
| MyndMeta.CutBefore | ferenda/sources/legal/se/myndfskr.py:644-649 | cutting a title before "beslutade den " leaves neither that phrase nor the decision phrase |
| MyndMeta.TitleSanitized | ferenda/sources/legal/se/myndfskr.py:641-649 | a title is dropped exactly when it holds "denna författning har beslutats den"; otherwise the result is a prefix without it, cut before "beslutade den " when that follows a line break or "; ", and untouched when neither occurs |
| MyndMeta.InnerOccurrence | ferenda/sources/legal/se/myndfskr.py:644-649 | a text containing "\nbeslutade den " contains "beslutade den " |
| MyndMeta.CleanSteps | ferenda/sources/legal/se/myndfskr.py:641-652 | after the title and authorisation rules no title holds the decision phrase, no authorisation holds an en dash, a clean title stays, and every other key is untouched |
| MyndMeta.DashToColonPointwise | ferenda/sources/legal/se/myndfskr.py:656 | `re.sub(r"(\d{4})-(\d+)", r"\1:\2", …)` changes only dashes, each into a colon |
| MyndMeta.DashToColonNoMatch | ferenda/sources/legal/se/myndfskr.py:655-656 | without a match the identifier is left alone |
| MyndMeta.NoDashNoMatch | ferenda/sources/legal/se/myndfskr.py:655 | a text without "-" has no match |
| MyndMeta.DashToColonSkip | ferenda/sources/legal/se/myndfskr.py:656 | a digit-free prefix is copied |
| MyndMeta.DashToColonNumber | ferenda/sources/legal/se/myndfskr.py:656 | "2012-4" becomes "2012:4" |
| MyndMeta.DashIdentifier | ferenda/sources/legal/se/myndfskr.py:654-656 | "DVFS 2012-4" becomes "DVFS 2012:4" |
| MyndMeta.FindAny | ferenda/sources/legal/se/myndfskr.py:663-670 | the first position of a character of the class, or none |
| MyndMeta.SplitAny | ferenda/sources/legal/se/myndfskr.py:663-670 | `re.split` on a one-character class gives at least one part |
| MyndMeta.SplitAnyNone | ferenda/sources/legal/se/myndfskr.py:663-670 | a text without class characters is one part |
| MyndMeta.SplitAnyCons | ferenda/sources/legal/se/myndfskr.py:663-670 | a part and one class character: the part is first |
| MyndMeta.FindAnyAt | ferenda/sources/legal/se/myndfskr.py:663-670 | the first class character is found at its position |
| MyndMeta.SplitAnyThree | ferenda/sources/legal/se/myndfskr.py:663-670 | three parts joined by class characters split into those three |
| MyndMeta.EntryTitleClobbersIdentifier | ferenda/sources/legal/se/myndfskr.py:678-682 | as written the document entry's title replaces the identifier the earlier rules settled, and still no title is set (Findings) |
| MyndMeta.EntryTitleFillsTitle | ferenda/sources/legal/se/myndfskr.py:678-682 | as the comment intends, the entry's title fills a missing title, keeping the identifier and leaving a dict with a title untouched |
| MyndMeta.SanitizedHasIdentifier | ferenda/sources/legal/se/myndfskr.py:634-683 | every sanitised dict has an identifier (corrected last rule, see Findings) |
| MyndMeta.RederiveKeeps | ferenda/sources/legal/se/myndfskr.py:662-667 | re-deriving from the identifier keeps identifier, title and authorisation |
| MyndMeta.IdentifierAgrees | ferenda/sources/legal/se/myndfskr.py:653-667 | an identifier "fs y:n" whose year and number agree with the dict leaves it unchanged |
| MyndMeta.IdentifierParts | ferenda/sources/legal/se/myndfskr.py:663 | "fs y:n" splits on space and colon into fs, y, n |
| MyndMeta.IdentifierFree | ferenda/sources/legal/se/myndfskr.py:655 | such an identifier holds no "-" |
| MyndMeta.IdentifierRederived | ferenda/sources/legal/se/myndfskr.py:662-667 | an identifier whose year differs from the dict's re-derives year edition and serial number from the identifier's basefile |
| MyndMeta.BasefileParts | ferenda/sources/legal/se/myndfskr.py:670 | an upper-cased "c/y:n" splits on "/", ":" and "_" into its three parts |
| MyndMeta.UpperNoSep | ferenda/sources/legal/se/myndfskr.py:670 | upper-casing keeps a part free of "/", ":" and "_" |
| MyndMeta.InferredIdentifier | ferenda/sources/legal/se/myndfskr.py:669-675 | without identifier, "c/y:n" gives "<altLabel of C> Y:N" |
| MyndMeta.InferredConsolidated | ferenda/sources/legal/se/myndfskr.py:669-677 | for a consolidated version the first part is dropped and " (konsoliderad)" appended |
| MyndFilters.FilterControlBytes | ferenda/sources/legal/se/myndfskr.py:488-496 | the loop keeps exactly KeptBytes of the buffer and warns at exactly the positions DroppedBelow lists |
| MyndFilters.FilterCounts | ferenda/sources/legal/se/myndfskr.py:491-496 | every byte is either kept or warned about |
| MyndFilters.DroppedPrefix | ferenda/sources/legal/se/myndfskr.py:491-494 | the warnings below a position depend only on the bytes before it |
| MyndFilters.DroppedExactly | ferenda/sources/legal/se/myndfskr.py:491-494 | a position is warned about exactly when its byte is a control byte other than TAB, LF, FF, CR; the warnings are increasing and in range |
| MyndFilters.KeptAllowed | ferenda/sources/legal/se/myndfskr.py:493-496 | every byte kept is allowed |
| MyndFilters.KeptAppend | ferenda/sources/legal/se/myndfskr.py:491-496 | filtering works byte by byte: filtering a concatenation concatenates the filtered parts |
| MyndFilters.KeptUnchanged | ferenda/sources/legal/se/myndfskr.py:491-496 | the buffer is unchanged exactly when it holds no forbidden control byte |
| MyndFilters.FilterBemyndiganden | ferenda/sources/legal/se/myndfskr.py:804-812 | the nested loop keeps exactly KeptUris: the URIs, in order, that no longer URI in the list starts with |
| MyndFilters.KeptUrisMembers | ferenda/sources/legal/se/myndfskr.py:805-812 | a URI is kept exactly when it is in the list and no longer URI of the list starts with it |
| MyndFilters.KeptUrisCount | ferenda/sources/legal/se/myndfskr.py:805-812 | a kept URI keeps all its duplicates, a dropped one none |
| MyndFilters.KeptUrisAppend | ferenda/sources/legal/se/myndfskr.py:805-812 | the filter works URI by URI |
| MyndFilters.Longest | ferenda/sources/legal/se/myndfskr.py:808 | a longest URI of the list |
| MyndFilters.FilterKeepsLongest | ferenda/sources/legal/se/myndfskr.py:804-812 | a non-empty list of authorisations keeps at least one (a longest one) |
| MyndFilters.ConsolidationRowIndex | ferenda/sources/legal/se/myndfskr.py:1714-1722 | the index returned is the first row whose heading contains "Konsoliderad", and None exactly when no row's does |
| MyndWatermark.Config.constructor | ferenda/sources/legal/se/myndfskr.py:77-80 | a configuration holds the last basefile (or none) and the refresh flag, nothing saved yet |
| MyndWatermark.SplitLastSuffix | ferenda/sources/legal/se/myndfskr.py:72-76 | the last part of a split ends the text |
| MyndWatermark.LastOfCons | ferenda/sources/legal/se/myndfskr.py:74 | a part in front does not change the last one |
| MyndWatermark.SuffixOfSuffix | ferenda/sources/legal/se/myndfskr.py:74 | a suffix of a suffix is a suffix |
| MyndWatermark.FsnrSuffix | ferenda/sources/legal/se/myndfskr.py:72-76 | `fsnr` is a suffix of the basefile without "/" |
| MyndWatermark.Passed | ferenda/sources/legal/se/myndfskr.py:81-85 | the pairs passed on are those before the first basefile not newer than `last_basefile` (never stopping on refresh or without one) |
| MyndWatermark.RecordLast | ferenda/sources/legal/se/myndfskr.py:70-92 | the wrapper yields exactly the passed pairs; stopping early it leaves the configuration alone, exhausting the listing it stores and writes the newest `fsnr` seen, starting from `last_basefile` or "0000:000" |
| MyndWatermark.PassAll | ferenda/sources/legal/se/myndfskr.py:82 | on refresh or without `last_basefile` every pair is passed on |
| MyndWatermark.WatermarkMax | ferenda/sources/legal/se/myndfskr.py:87-88 | for a total preorder, the stored mark is at least the start and every `fsnr` seen, and is the start or one of them |
| MyndAfs.DateTailOf | ferenda/sources/legal/se/myndfskr.py:1018 | "den 12 maj 2014" ends a line as `den \d+ \w+ \d{4}$` requires |
| MyndAfs.FirstSuffix | ferenda/sources/legal/se/myndfskr.py:1018-1032 | `search` finds the first position whose suffix matches, and none when there is none |
| MyndAfs.Before | ferenda/sources/legal/se/myndfskr.py:1025-1028 | the text before the marginal text is a prefix of the line |
| MyndAfs.StepLine | ferenda/sources/legal/se/myndfskr.py:1020-1041 | one line never shrinks the margin collected |
| MyndAfs.RunSnoc | ferenda/sources/legal/se/myndfskr.py:1019-1041 | the loop handles the lines one at a time, each adding its new line and "\n" |
| MyndAfs.SanitizeText | ferenda/sources/legal/se/myndfskr.py:1012-1042 | the loop with `margin` and `inmargin` returns the text Run gives |
| MyndAfs.EntersAtMostOnce | ferenda/sources/legal/se/myndfskr.py:1021-1024 | the margin is entered at most once, and never once it holds text |
| MyndAfs.EmptyLine | ferenda/sources/legal/se/myndfskr.py:1021-1033 | an empty line matches no date, no "Utkom från trycket" and does not enter the margin |
| MyndAfs.BlankEndsMargin | ferenda/sources/legal/se/myndfskr.py:1033-1035 | a blank line in the margin ends it and is replaced by the margin's block |
| MyndAfs.AfterMargin | ferenda/sources/legal/se/myndfskr.py:1036-1041 | after the margin block every line is copied |
| MyndAfs.NoMarginKept | ferenda/sources/legal/se/myndfskr.py:1019-1041 | without a line ending in the identifier every line is copied |
| MyndAfs.UnlinesJoin | ferenda/sources/legal/se/myndfskr.py:1041 | adding "\n" after each line is joining them and a final "\n" |
| MyndAfs.UntouchedText | ferenda/sources/legal/se/myndfskr.py:1012-1042 | a text with no line ending in the probable identifier comes back with one "\n" added |
| MyndPmfs.RemoveFirst | ferenda/sources/legal/se/myndfskr.py:2205-2206 | `list.remove` takes out one occurrence when the item is present and leaves the list alone otherwise |
| MyndPmfs.TargetsAgreeWithConstructors | ferenda/sources/legal/se/myndfskr.py:2211-2226 | every transition that calls a constructor moves to the state that constructor's `newstate` decorator names |
| MyndPmfs.BulletlistAndAppendixNeverSelected | ferenda/sources/legal/se/myndfskr.py:2211-2226 | no transition is keyed on the bullet-list or appendix recognizers, so those constructors are never called and the bullet-list state has no transitions |
| MyndPmfs.ParagrafOverrides | ferenda/sources/legal/se/myndfskr.py:2213-2226 | the `paragraf` entries for a paragraph start or a heading override the common ones and close the paragraph; a chapter start closes both a chapter and a paragraph |
| MyndPmfs.ReachableStates | ferenda/sources/legal/se/myndfskr.py:2211-2228 | starting from `body`, exactly the states body, kapitel and paragraf can be entered |
| MyndPmfs.StyckeEverywhere | ferenda/sources/legal/se/myndfskr.py:2196-2216 | in every reachable state a plain chunk becomes a paragraph of text, and `is_stycke` is the last recognizer of every configuration |
| MyndPmfs.NoAppendixConfig | ferenda/sources/legal/se/myndfskr.py:2196-2206 | the `noappendix` configuration is the default list without `is_appendix` |
| MyndPmfs.HeadingShape | ferenda/sources/legal/se/myndfskr.py:2139-2168 | a chunk taken as a heading is a single text box of at most 135 characters, starting upper-case, without a disallowed ending, not smaller than the default font; its level is 2 exactly when the font is italic, and 0 only for a title ending in "författningssamling" |
| MyndPmfs.HeadingFromText | ferenda/sources/legal/se/myndfskr.py:2139-2168 | without a chunk, the text alone decides: a heading iff 1..135 characters, upper-case start and an allowed ending; never level 2; the empty text raises an index error |
| MyndPmfs.AbbreviationAccepted | ferenda/sources/legal/se/myndfskr.py:2154-2156 | a text ending in "m.m.", "m. m.", "m.fl." or "m. fl." is not rejected for its ending |
| MyndPmfs.EndingLastChar | ferenda/sources/legal/se/myndfskr.py:2154-2156 | a text ending with a suffix ends with that suffix's last character |
| MyndPmfs.SizeMatchTolerance | ferenda/sources/legal/se/myndfskr.py:2184-2191 | for scanned sources with the default tolerances a size matches iff it is at least the wanted one (the 10/9 example of the comment holds); widening the tolerances keeps a match; for born-digital sources only equality matches |
| MyndPmfs.ListItemDropsBullet | ferenda/sources/legal/se/myndfskr.py:2016-2026 | a list item keeps the chunk's geometry and font and holds one text: the chunk's text after its first space, or after its first character when there is no space, always a proper suffix of it |
| MyndPmfs.Node.constructor | ferenda/sources/legal/se/myndfskr.py:1948-2029 | a new document node has the given shape and children and no URI or id yet |
| MyndPmfs.UriSet.constructor | ferenda/sources/legal/se/myndfskr.py:2233-2235 | the visit starts with an empty set of URIs |
| MyndPmfs.Shapes | ferenda/sources/legal/se/myndfskr.py:2259-2263 | the siblings are compared by their shape, one per child, in order |
| MyndPmfs.Stop | ferenda/sources/legal/se/myndfskr.py:2259-2263 | the loop over the siblings runs up to and including the first equal node, or over all of them |
| MyndPmfs.SiblingOrdinal | ferenda/sources/legal/se/myndfskr.py:2254-2263 | the ordinal is the number of siblings of the node's kind up to and including the node itself |
| MyndPmfs.StopAtFirst | ferenda/sources/legal/se/myndfskr.py:2259-2263 | the loop stops right after the first sibling equal to the node |
| MyndPmfs.CountKindMonotone | ferenda/sources/legal/se/myndfskr.py:2259-2261 | counting over a longer prefix of the siblings never gives fewer nodes of a kind |
| MyndPmfs.PositionAmongSiblings | ferenda/sources/legal/se/myndfskr.py:2254-2263 | a node's ordinal is at least 1, and of two distinct siblings of one kind the earlier has the smaller ordinal |
| MyndPmfs.PunktKeyZero | ferenda/sources/legal/se/myndfskr.py:2243-2276 | the first list-item key is "rinfoex:punktnummer" |
| MyndPmfs.PunktStep | ferenda/sources/legal/se/myndfskr.py:2274-2276 | splitting a list-item key at ":" gives two parts, and prefixing "rinfoex:sub" to the second gives the next key |
| MyndPmfs.PunktSplit | ferenda/sources/legal/se/myndfskr.py:2275-2276 | a list-item key splits into the namespace and "sub"… + "punktnummer" |
| MyndPmfs.PunktNext | ferenda/sources/legal/se/myndfskr.py:2275-2276 | the loop step turns one list-item key into the next deeper one |
| MyndPmfs.PunktKeysCard | ferenda/sources/legal/se/myndfskr.py:2274-2276 | the first n list-item keys are n distinct strings |
| MyndPmfs.KeysBound | ferenda/sources/legal/se/myndfskr.py:2274-2276 | a state holding the first n list-item keys has at least n keys, which bounds the loop |
| MyndPmfs.FreeDepth | ferenda/sources/legal/se/myndfskr.py:2273-2276 | the loop stops at the first list-item key the state does not hold, all shallower ones being taken |
| MyndPmfs.ListKey | ferenda/sources/legal/se/myndfskr.py:2272-2276 | the `while ordinalpredicate in state` loop returns the first free list-item key |
| MyndPmfs.ListKeyFree | ferenda/sources/legal/se/myndfskr.py:2272-2277 | the key chosen is free, so a nested list item never overwrites its parent's ordinal, and a state without a list item uses "rinfoex:punktnummer" itself |
| MyndPmfs.Fragment | ferenda/sources/legal/se/myndfskr.py:2307-2308 | a URI has a fragment iff it contains "#", and the fragment is what follows the first "#" |
| MyndPmfs.AssignUri | ferenda/sources/legal/se/myndfskr.py:2283-2311 | a URI that could be minted, is not yet used and whose node is not a time-bound one out of effect becomes the node's URI and joins the set, and the id is its fragment; a used URI, or a node out of effect, skips the node's children; no URI leaves the node unchanged and goes on |
| MyndPmfs.ConstructId | ferenda/sources/legal/se/myndfskr.py:2247-2311 | nodes of a kind without an ordinal predicate only pass the state on (merged with the basefile metadata at the root); other nodes get their ordinal under their predicate and go through the URI assignment; a numbered node with no parent in the state raises |
| MyndPmfs.DistinctAppend | ferenda/sources/legal/se/myndfskr.py:2293-2296 | two duplicate-free URI lists with nothing in common join into one |
| MyndPmfs.KeepApart | ferenda/sources/legal/se/myndfskr.py:2293-2296 | nodes given URIs earlier keep them while later nodes get fresh ones, so all remain pairwise different |
| MyndPmfs.Enter | ferenda/sources/legal/se/myndfskr.py:2247-2311 | visiting one node mints at most one URI, new to the set, which becomes the node's URI; otherwise the node is unchanged |
| MyndPmfs.Visit | ferenda/sources/legal/se/myndfskr.py:2233-2303 | walking a subtree adds to the set only fresh, pairwise distinct URIs; every node given a URI holds one of them, no URI is held by more than one node, and nodes not given one are unchanged |
| MyndPmfs.VisitChildren | ferenda/sources/legal/se/myndfskr.py:2297-2311 | the children are visited in order with the node as parent, with the same guarantees as Visit |

## Left out

Outside the model altogether:
- Network I/O, scraping, text extraction (PDF, OCR, Word), RDF graph building and the citation parser. These are foreign code or I/O. Where a modelled operation calls one of them, the call is a parameter (`mint` in `MyndPmfs.ConstructId`, `parse` in `WsgiApp.ExpandPartialRef`, the lookups of `DvMeta`).
- Logging, log-level juggling and timing. They do not change any result.
- The `FSMParser` engine that runs the grammar tables of DV and PMFS is not part of this model. The tables are modelled as data, and the facts proved are facts about those tables. `make_bulletlist`, `make_appendix` and the other constructors appear only by name.
- Date parsing (`parse_swedish_date`), so step 8 of DV's `sanitize_metadata` is left out. Step 7 (the Sökord list) is modelled separately as `DvSokord.Sokord`.
- Riksdagen's OCR gap removal on the front page (ferenda/sources/legal/se/riksdagen.py:397-411). It is floating-point layout geometry, and it removes from a list while iterating over it.
- The sub-repositories' own code, and the utilities `util.link_or_copy`, `util.outfile_is_newer` and `util.split_numalpha`, are not part of this model. Each enters as a parameter or as a stated semantics:
  - a sub-repository is a `Behaviour` value;
  - `outfile_is_newer` compares mtimes;
  - `split_numalpha` is the order `le` passed to `MyndWatermark`.
- `DocumentEntry` is not part of this model. The entry title it would read is the parameter `entryTitle` of `MyndMeta.TitleFromEntry`.
- Zip archive I/O and file timestamps in `process_zipfile`. The archive is a list of (member name, content) pairs.
- The de-hyphenation and string parsing that precede the authorisation filter in `polish_metadata`.
- The `namespace` and `RPUBL` constants of the RDF vocabulary. Predicates are plain strings.
- `super()` calls into classes that are not shown. They enter as parameters.

Modelled, but weaker than or different from the source:
- CompositeRepo.InstantiateAll: with `extrabases` set, compositerepository.py:137-141 builds a new class with `type(...)` for every entry of `subrepos`. A sub-repository listed twice therefore gets two registry keys and two instances, and `download` and `parse` run on both. The model composes two equal `RepoClass` values and keeps one, because class identity is not modelled.
- CompositeRepo.LinkOrCopy: `link_or_copy` may create a symbolic link, but the model copies content and mtime. Later writes through one path are not seen through the other, and the dangling link left when the source file is missing is not modelled.
- CompositeRepo.CompositeStore.ListBasefilesFor: Python's generator is modelled as consumed to the end. A caller that stops early would leave `basefiles` partly recorded.
- DvZip.OnlyTargetsChange: the notice extractor is the parameter `notis`, which returns only its two counters. The empty placeholder file it creates for each notice basefile (dv.py:615-617) is not in the modelled file map, so the lemma does not cover those files.
- DvBody.GlueShortlines: lines are plain text. The source measures BeautifulSoup's `.string` of the buffer's last child, which is None (and `len` raises) for a line with several children, and which for a new buffer is the line's own last child; the model measures the last buffered line's whole text.
- MyndMeta.MetadataProps: the keys that `super().metadata_from_basefile` puts in the dict (myndfskr.py:361) are not modelled; the contract speaks only of the keys myndfskr.py adds.
- DvBody.SmushedMarker: Python's `$` also matches just before a final "\n". For "domslut.II\n", dv.py:791 splits off "II", but the model requires the marker to end the string.
- DvBody.Mellandomstema: the same `$` before a final newline is not modelled.
- DvParser.MarkerTail: the same `$` before a final newline is not modelled.
- PyStr.IsUpperChar: `isupper`, `islower`, `isspace`, `\w`, `\d` and `upper()` cover ASCII plus the Swedish letters åäöéü. Other Unicode categories are not modelled, and neither is `upper()` expanding "ß" into "SS".
- WsgiApp.MatchLaw: the abbreviations are matched as literal text. wsgiapp.py:55 joins them into the pattern without `re.escape`, so an abbreviation that holds a regex metacharacter such as "." matches more in the source.
- MyndIdentify.BasefileFromUri: the SAEIFS rewrite of "/saeifs/" to "/säifs/" and its `super(MyndFskrBase, self)` call (myndfskr.py:1552-1554) are not modelled.
- MyndIdentify.BasefileFromUri: ELSAKFS's rewrite of "elsaek-fs" (myndfskr.py:1278-1280) is not modelled either. ELSAKFS's `sanitize_basefile` is modelled.
- MyndPmfs.ConstructId: the ordinal is stored as a decimal string, not as a Python int.
- MyndPmfs.SiblingOrdinal: `node == othernode` is modelled as equality of the nodes' shapes (kind, ordinal, time-bound flags and content). Python compares the elements' contents.
- MyndPmfs.Visit: does not promise that every minted URI is still held by some node at the end, only that each is held by at most one. The Node model allows a subtree to be shared between parents, and a node visited twice may take a second URI in place of its first.
- MyndPmfs.Visit: the tree walk belongs to the framework. The model visits children in order, passing the state returned for the parent, and skips a subtree when `construct_id` returns None.
- DvSokord.Capitalize: `util.ucfirst` is not shown. It is modelled as upper-casing the first character.
- MyndWatermark.RecordLast: the generator is modelled as consumed to the end. The configuration write on exhaustion is a new value of `last_basefile`.

## Findings

| source | as written | input that shows it | evidently intended | confidence | as-written member | corrected member |
|---|---|---|---|---|---|---|
| lagen/nu/wsgiapp.py:102 | `re.sub(r"\s*s\s*(\d)", " s. \\1", q)` takes any "s" before a number as a page reference, including the final "s" of "Ds" | "Ds 1998:5" becomes "D s. 1998:5", which has three segments, so " 1" is appended with remove 1 | only an "s" that does not end a word starts a page reference, and "Ds 1998:5" stays as it is with remove 0 | not executed | WsgiApp.SubPageRefAsWritten, WsgiApp.DsPaddedAsWritten | WsgiApp.SubPageRef, WsgiApp.DsPaddedWhenFixed |
| ferenda/sources/legal/se/dv.py:755-768 | lines gathered in `currentline` after the last section break are never appended to the new body | the lines ["a", "b"], neither a heading nor a sentence end, give an empty body | the trailing section is kept: ["\na\nb"] | not executed | DvBody.ReconstructedAsWritten, DvBody.ReconstructionDropsLastSection | DvBody.Reconstructed |
| ferenda/sources/legal/se/dv.py:825-829 | a line of `shortlen` (62) or more characters that does not continue a buffer is neither buffered nor yielded | a single line of 62 characters yields nothing | a long line is yielded on its own | not executed | DvBody.GlueAsWritten, DvBody.GlueDropsLongLine | DvBody.Glued |
| ferenda/sources/legal/se/myndfskr.py:1313 | `basefile.isdigit` is used without being called, so the condition is always true | "201412:5" becomes "2014:12:5" and then "fffs/2014/12:5" | the colon is put in only into an all-digit basefile, so "201412:5" gives "fffs/201412:5" | not executed | MyndBasefile.FffsColonAsWritten, MyndBasefile.FffsColonAlwaysApplied | MyndBasefile.FffsColon, MyndBasefile.FffsColonKept |
| ferenda/sources/legal/se/myndfskr.py:679-682 | when there is no title, the title of the document entry is stored under `dcterms:identifier` | metadata with identifier "PMFS 2014:1" and no title, with entry title "Föreskrifter", ends up with identifier "Föreskrifter" and still no title | the entry title fills in `dcterms:title` and the identifier is kept | not executed | MyndMeta.TitleFromEntryAsWritten, MyndMeta.EntryTitleClobbersIdentifier | MyndMeta.TitleFromEntry, MyndMeta.EntryTitleFillsTitle |
