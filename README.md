# pypi-crawlers: the data shaping between fetching and persisting

The pypi-crawlers scripts fetch package metadata from PyPI and save it in bucketed JSON
dictionaries. This project models the deterministic part of that work in Dafny and proves
properties of it. That part covers:

- **Dependency-dump deduplication.** The dump is a nested dictionary:
  name → pyver → version → filename → entry. An entry is either an inline metadata
  document or a `"ver@fn"` reference to an equal document earlier in the group.
  - `sort`, `decompress` and `compress` of the Scrapy spider work per (name, pyver) group.
  - The older `compress` shares its table across all pyvers of a package.
- **Result merge.** `process_result` and the merge loop of the older `main` create the
  nested path and replace the filename entry with the truthy metadata fields.
- **Job generation.**
  - The spider's `start_requests`, with its bucket skip.
  - Both `get_jobs` variants.
  - The three `construct_url` variants.
- **Artifact selection.** `HttpWheel.read` chooses the METADATA member of a wheel archive.
- **PyPI listing.** `find_favorite_format` and the release shaping of `save_pkg_meta`
  pick and store one source distribution per version. `names_in_buckets` groups the
  package names by bucket.

Modules:

- `base.dfy` (`Base`): Python dictionaries as ordered association lists `seq<(K, V)>`.
  Lookup returns the first match. Assignment (`Upsert`) replaces a value in place or
  appends a new key.
- `strings.dfy` (`Strings`): `str.split`, `str.join`, `in`, `endswith`, `startswith` and
  `replace(pat, '')`.
- `order.dfy` (`Ordering`): lexicographic order and a stable insertion sort standing for
  `sorted`.
- `seqs.dfy` (`Seqs`): flatten, map, filter, and `random.shuffle`, driven by a sequence of
  random draws.
- `dedup.dfy` (`Dedup`): the store, and `sort`, `decompress`, the new and old `compress`
  as specification functions, with their laws.
- `merge.dfy` (`Merge`): the result merge.
- `dump_dict.dfy` (`DumpDicts`): the class `DumpDict` holding the dump. Its methods run the
  source's in-place loops, and each is proved equal to its specification function.
- `jobs.dfy` (`Jobs`): URLs, the registry of wheels, the three job generators and the
  bucket skip.
- `wheel_metadata.dfy` (`WheelMetadata`): the METADATA member selection.
- `crawl_urls.dfy` (`CrawlUrls`): favourite format, release shaping, name normalisation
  and the bucket grouping.

The choice of source artifact depends on the order of the input files. Ties between
equally short filenames go to the first in input order, because `min` keeps the first
minimum. `CrawlUrls.FavoriteChoice` states this tie-break.

## Model

| member | source | states |
|---|---|---|
| Base.UpsertLookup | src/wheel_deps_spider.py:113 | Dictionary assignment `d[k] = v`: afterwards `d[k]` is `v` and every other key reads as before |
| Base.UpsertDistinct | src/wheel_deps_spider.py:107-113 | Assigning into a dictionary with distinct keys keeps the keys distinct |
| Strings.JoinSplit | src/crawl_wheel_deps_old.py:60-63 | `sep.join(s.split(sep)) == s` |
| Strings.SplitJoin | src/crawl_wheel_deps_old.py:60-63 | Splitting a join of separator-free parts gives the parts back |
| Ordering.SortSorted | src/wheel_deps_spider.py:55 | `sorted` under a total preorder yields a sorted list; `InsertionSort` keeps the multiset of items |
| Ordering.SortOfSorted | src/wheel_deps_spider.py:55 | Sorting an already sorted list changes nothing |
| Ordering.LexStrictTotal | src/wheel_deps_spider.py:55 | Python's sequence comparison over a strict total order is total, transitive and antisymmetric |
| Seqs.Shuffle | src/wheel_deps_spider.py:163 | `shuffle` returns a permutation of its input, whatever the random draws |
| Jobs.ConstructUrl | src/wheel_deps_spider.py:48-50 | The URL starts with `https://files.pythonhosted.org/packages/` and ends with `/` + filename; a non-empty name is required (`name[0]`) |
| Jobs.ConstructUrlParse | src/wheel_deps_spider.py:48-50 | The URL is the base followed by exactly the segments pyver, `name[0]`, name, filename: splitting on '/' recovers each field |
| Jobs.PackagePathSplit | src/crawl_wheel_deps_old.py:34-36 | The older variant builds the same path: pyver / first letter / name / filename, recoverable segment by segment |
| Jobs.PypiUrl | src/crawl_wheel_deps.py:15-17 | The newer URL starts with `https://pypi.org/packages/` and ends with `/` + filename; the filename needs at least three '-'-separated fields |
| Jobs.PypiUrlParse | src/crawl_wheel_deps.py:15-17 | The newer URL's segments are the third '-'-field of the filename, `name[0]`, name and filename |
| Jobs.PyverOfFields | src/crawl_wheel_deps.py:16 | The pyver taken from a filename is exactly its third '-'-separated field |
| Jobs.VersionWheelsMember | src/wheel_deps_spider.py:154-157 | A version yields a wheel exactly when it has `'wheels'` and that filename and data are among them |
| Jobs.ReleaseWheelsMember | src/wheel_deps_spider.py:154-157 | The wheels of a package are exactly those of its versions |
| Jobs.BucketWheelsMember | src/wheel_deps_spider.py:151-157 | The wheels of a bucket are exactly the (name, version, filename, data) of some version with `'wheels'` |
| Jobs.BucketWheelsPermutation | src/crawl_wheel_deps.py:44-46 | Shuffling the package names permutes the resulting wheels |
| Jobs.BucketWheelsCount | src/crawl_wheel_deps.py:46-52 | The number of wheels equals the total number of filenames under `'wheels'` |
| Jobs.SpiderWheelsFetchable | src/wheel_deps_spider.py:151-158 | Under the readiness condition, every wheel reaching `construct_url` has a name and a `data[1]` |
| Jobs.SpiderRequests | src/wheel_deps_spider.py:150-161 | The append loop builds exactly one request per wheel of a non-skipped package, in registry order |
| Jobs.StartRequests | src/wheel_deps_spider.py:143-164 | `start_requests` returns a permutation of those requests |
| Jobs.SpiderJobsMember | src/wheel_deps_spider.py:151-161 | A request is issued iff it is the request of a bucket wheel whose package is not skipped (in the dump with fewer than two pyvers); the job's pyver is `data[1]` |
| Jobs.SpiderJobsCount | src/wheel_deps_spider.py:151-161 | The number of requests equals the number of wheel filenames of the non-skipped packages |
| Jobs.SpiderWheelsCount | src/wheel_deps_spider.py:151-157 | The filtered wheels number the filenames of the non-skipped packages |
| Jobs.OldWheelsFetchable | src/crawl_wheel_deps_old.py:96-108 | Every wheel the older `get_jobs` keeps is fetchable and absent from the dump |
| Jobs.FreshRequestsAppend | src/crawl_wheel_deps_old.py:96-110 | The jobs of a concatenation are the jobs of each part, in order |
| Jobs.VersionJobs | src/crawl_wheel_deps_old.py:98-110 | The loop over one version emits a job for each wheel not in the dump, and nothing without `'wheels'` |
| Jobs.PackageJobs | src/crawl_wheel_deps_old.py:97-110 | The loop over one package emits the jobs of its versions in order |
| Jobs.GetJobsOld | src/crawl_wheel_deps_old.py:93-112 | The jobs are numbered 0..n-1 in list order and, without their numbers, are a permutation of the requests for the wheels not in the dump |
| Jobs.OldRequestsMember | src/crawl_wheel_deps_old.py:97-110 | A job is emitted iff it is the request of a bucket wheel whose (name, pyver, ver, filename) is not in the dump |
| Jobs.MergedNotRequested | src/crawl_wheel_deps_old.py:102-107 | Once a result is merged into the dump, the older `get_jobs` does not request that job again |
| Jobs.Number | src/crawl_wheel_deps_old.py:112 | Numbering keeps every job and its order |
| Jobs.VersionUrls | src/crawl_wheel_deps.py:47-52 | The newer loop over one version yields nothing without `'wheels'`, otherwise one URL per wheel filename |
| Jobs.PackageUrls | src/crawl_wheel_deps.py:47-52 | The loop over one package yields the URLs of its versions in order |
| Jobs.RegistryUrls | src/crawl_wheel_deps.py:46-52 | The loop over the names yields one URL per wheel of the bucket |
| Jobs.GetJobsNew | src/crawl_wheel_deps.py:43-52 | The newer `get_jobs` yields a permutation of those URLs, as many as there are wheel filenames |
| Jobs.NewUrlsMember | src/crawl_wheel_deps.py:46-52 | A URL is yielded iff it is the pypi.org URL of some wheel of the bucket |
| Jobs.HexValueToHex | src/wheel_deps_spider.py:179 | `int(s, 16)` of a zero-padded lower-case hex rendering gives back the number it renders |
| Jobs.Spiders | src/wheel_deps_spider.py:172-181 | The spiders are the buckets in order, minus those whose hex value is below `skip` when `skip` is set |
| Jobs.SpidersMember | src/wheel_deps_spider.py:179-180 | A bucket is crawled iff it is listed and not below `skip` |
| Jobs.SpidersNoSkip | src/wheel_deps_spider.py:179 | Without `skip` every bucket is crawled |
| Merge.Keep | src/wheel_deps_spider.py:114-117 | A field is stored iff it is truthy (present and non-empty), and then unchanged |
| Merge.MergeResultLookup | src/wheel_deps_spider.py:107-117 | After `process_result` the job's path exists and its entry is exactly the truthy fields of the result |
| Merge.MergeResultOthers | src/wheel_deps_spider.py:107-113 | Every other (name, pyver, ver, filename) entry is untouched |
| Merge.MergeResultWellFormed | src/wheel_deps_spider.py:107-113 | Creating the missing levels keeps every level's keys distinct |
| Merge.MergeAllStep | src/crawl_wheel_deps_old.py:146-163 | The merge loop skips an exception result and merges a fetched one |
| Merge.MergeAllLookup | src/crawl_wheel_deps_old.py:146-148 | Entries no fetched result names are left as they were |
| Merge.MergeAllFetched | src/crawl_wheel_deps_old.py:146-163 | A job's entry holds the fields of the last fetched result for it |
| Merge.MergeAllConcat | src/crawl_wheel_deps_old.py:146 | Merging two batches in turn equals merging their concatenation |
| Dedup.SetAt | src/wheel_deps_spider.py:77 | Overwriting `fnames[fn]` changes that entry only, and keeps every key |
| Dedup.DecompressResolves | src/wheel_deps_spider.py:66-77 | When every reference names an inline entry of its group, `decompress` succeeds and replaces each `"v@f"` by `pkg_vers[v][f]` |
| Dedup.DecompressFrom | src/wheel_deps_spider.py:68-77 | From any position, the remaining loop resolves the rest of the group, given everything before that position is resolved |
| Dedup.DecompressRefStep | src/wheel_deps_spider.py:70-77 | A reference splits on '@' into exactly two parts and names the document it resolves to |
| Dedup.DecompressOkFrom | src/wheel_deps_spider.py:70-76 | If `decompress` succeeds, every reference split into exactly two parts and named an existing entry |
| Dedup.DanglingRefFails | src/wheel_deps_spider.py:72-76 | A reference whose target is missing (or that does not split in two) is an error |
| Dedup.DecompressKeeps | src/wheel_deps_spider.py:70 | `decompress` keeps every key and every inline entry |
| Dedup.FindDoc | src/wheel_deps_spider.py:91-94 | The table search returns the key of the first document equal to the entry (no earlier document is equal), or nothing iff no document is equal |
| Dedup.CompressGroupInv | src/wheel_deps_spider.py:88-96 | The per-group loop keeps the compression invariant to the end of the group |
| Dedup.CompressRefsEarlier | src/wheel_deps_spider.py:88-96 | After `compress` every entry is unchanged, or it was inline and is now a reference to an earlier position kept inline with the same document |
| Dedup.CompressInlineDistinct | src/wheel_deps_spider.py:88-96 | After `compress` no two inline entries of a group are equal (keys free of '@') |
| Dedup.CompressRoundTrip | src/wheel_deps_spider.py:63-96 | Decompressing the compression of an all-inline group with distinct keys free of '@' gives the group back |
| Dedup.RefKeySplit | src/wheel_deps_spider.py:71-96 | A key `f"{v}@{f}"` splits on '@' into `[v, f]` when neither part contains '@' |
| Dedup.SortLevelLookup | src/wheel_deps_spider.py:53-60 | `sort` keeps every key with its recursively sorted value, keys strictly ascending, distinct keys kept distinct |
| Dedup.SortLevelItems | src/wheel_deps_spider.py:53-60 | `sort` contains exactly the (key, sorted value) pairs of its input |
| Dedup.SortLevelIdempotent | src/wheel_deps_spider.py:53-60 | Sorting one level twice is sorting it once, if the values' sort is idempotent |
| Dedup.SortGroupIdempotent | src/wheel_deps_spider.py:53-60 | `sort(sort(d)) == sort(d)` on a group |
| Dedup.SortRecordIdempotent | src/wheel_deps_spider.py:53-60 | `sort(sort(d)) == sort(d)` on a package record |
| Dedup.SortStoreSorted | src/wheel_deps_spider.py:53-60 | After the sorting pass of `compress` every level of every record of a well-formed store has strictly ascending distinct keys, each pyver reads its group sorted, and the dump stays well-formed |
| Dedup.SortStoreIdempotent | src/wheel_deps_spider.py:83-84 | Sorting every record of the dump twice gives the same dump as sorting once |
| Dedup.SortGroupLookup | src/wheel_deps_spider.py:53-60 | `sort` of a (name, pyver) group orders both levels and `g[v][f]` reads the same entry as before |
| Dedup.SortFnamesLookup | src/wheel_deps_spider.py:53-60 | `sort` of a filename level orders its keys and keeps every entry under its filename |
| Dedup.DecompressStoreOk | src/wheel_deps_spider.py:66-77 | `decompress` of the store succeeds with every group decompressed |
| Dedup.DecompressStoreFails | src/wheel_deps_spider.py:72-76 | One failing group makes `decompress` of the store fail |
| Dedup.CompressStoreRefsEarlier | src/wheel_deps_spider.py:80-96 | After `compress` every entry of a (name, pyver) group is its decompressed, sorted content, or a reference to an earlier position of the same group holding that content inline: groups of different pyvers never refer to each other |
| Dedup.CompressStoreInlineDistinct | src/wheel_deps_spider.py:85-96 | After `compress` no two inline entries of any (name, pyver) group of the dump are equal |
| Dedup.DecompressStoreResolves | src/wheel_deps_spider.py:66-77 | A dump in which every reference names an inline entry of its own group decompresses to its resolution |
| Dedup.CompressStoreRoundTrip | src/wheel_deps_spider.py:80-96 | `compress` succeeds on a well-formed dump, and decompressing its result gives the sorted resolved dump, which is what `decompress(d)` gives, sorted |
| Dedup.CompressStoreIdempotent | src/wheel_deps_spider.py:80-96 | Compressing a compressed dump again yields the same dump |
| Dedup.OldCompressStoreRefs | src/crawl_wheel_deps_old.py:115-126 | After the older `compress` every package keeps its pyvers and keys, and every entry is unchanged or refers to an entry kept inline with the same document, under an earlier pyver or earlier in the same group |
| Dedup.OldCompressRefs | src/crawl_wheel_deps_old.py:116-126 | After the older `compress`, every entry is unchanged, or it was inline and now refers to an entry kept inline with the same document, under an earlier pyver or earlier in the same group |
| Dedup.OldCompressCrossPyver | src/crawl_wheel_deps_old.py:117-126 | With equal documents under two pyvers, the second becomes a reference into the first pyver's group |
| Dedup.CrossPyverDangling | src/crawl_wheel_deps_old.py:117-126 | Such a cross-pyver reference is dangling for the per-group `decompress` of the spider |
| Dedup.CompressCrossPyverKeeps | src/wheel_deps_spider.py:85-88 | The spider's `compress` leaves the same record unchanged, since its table is reset per pyver |
| DumpDicts.DecompressGroupLoop | src/wheel_deps_spider.py:68-77 | The in-place loop over one group computes `DecompressGroup`, with the first malformed or dangling reference as the error |
| DumpDicts.CompressGroupLoop | src/wheel_deps_spider.py:89-96 | The in-place loop over one group, with its table, computes `CompressAt` |
| DumpDicts.DecompressRecordFirstErr | src/wheel_deps_spider.py:67-76 | The error reported for a package is that of its first failing pyver |
| DumpDicts.DecompressStoreFirstErr | src/wheel_deps_spider.py:66-76 | The error reported for the dump is that of its first failing package |
| DumpDicts.DumpDict.constructor | src/wheel_deps_spider.py:174 | A dump dictionary starts with the given contents |
| DumpDicts.DumpDict.Decompress | src/wheel_deps_spider.py:63-77 | On success the dump becomes `DecompressStore` of the old dump; otherwise the first error is reported |
| DumpDicts.DumpDict.SortRecords | src/wheel_deps_spider.py:83-84 | Every package record is replaced by its sorted copy |
| DumpDicts.DumpDict.CompressGroups | src/wheel_deps_spider.py:85-96 | The dump becomes `CompressStoreGroups` of the old dump |
| DumpDicts.DumpDict.Compress | src/wheel_deps_spider.py:80-96 | `compress` = decompress, sort, compress per group: the dump becomes `CompressStore` of the old dump, or the decompress error is reported |
| DumpDicts.DumpDict.OldCompress | src/crawl_wheel_deps_old.py:115-126 | The dump becomes `OldCompressStore` of the old dump |
| DumpDicts.DumpDict.ProcessResult | src/wheel_deps_spider.py:103-117 | The dump becomes `MergeResult` of the old dump |
| DumpDicts.DumpDict.MergeResults | src/crawl_wheel_deps_old.py:146-163 | The dump becomes `MergeAll` of the old dump over the results |
| WheelMetadata.ReadMemberFound | src/crawl_wheel_deps_old.py:54-55 | `archive.read(name)` finds content iff the name is listed |
| WheelMetadata.SortedCandidatesMember | src/crawl_wheel_deps_old.py:60-61 | The sorted candidates are exactly the split names that contain `METADATA` |
| WheelMetadata.PathLeTotalPreorder | src/crawl_wheel_deps_old.py:61 | The order of `(len(x), x)` is a total preorder |
| WheelMetadata.MarkedSplit | src/crawl_wheel_deps_old.py:60-64 | `'/'.join(x.split('/'))` is the name again, so a candidate path qualifies iff its name does |
| WheelMetadata.ReadMetadata | src/crawl_wheel_deps_old.py:59-68 | The loop returns the content of the first sorted candidate containing `Metadata-Version`, or nothing |
| WheelMetadata.FirstMarkedNone | src/crawl_wheel_deps_old.py:62-66 | The loop finds nothing iff no path in the list is marked |
| WheelMetadata.FirstMarkedSome | src/crawl_wheel_deps_old.py:62-66 | A found content belongs to a marked path, and no earlier path is marked |
| WheelMetadata.ReadMetadataNone | src/crawl_wheel_deps_old.py:60-68 | `read` returns nothing iff no member whose name contains `METADATA` has content containing `Metadata-Version` |
| WheelMetadata.ReadMetadataSome | src/crawl_wheel_deps_old.py:60-66 | A returned content is that of a qualifying member that is least among all qualifying members by (segment count, segments) |
| WheelMetadata.ReadMetadataFewestSegments | src/crawl_wheel_deps_old.py:61-66 | The returned content comes from a qualifying member with the fewest path segments |
| CrawlUrls.Shortest | src/crawl_urls.py:40 | `min` by filename length returns an element of minimal length, the first such in input order |
| CrawlUrls.ShortestWithSuffix | src/crawl_urls.py:38-40 | The pick for a suffix is the first shortest filename with that suffix |
| CrawlUrls.FavoriteNone | src/crawl_urls.py:37-41 | `find_favorite_format` returns `None` iff no filename ends with an accepted suffix |
| CrawlUrls.FavoriteChoice | src/crawl_urls.py:37-40 | The result is an input file with the first suffix (in `f_types` order) that any file has; among those files it is the first shortest, whatever the lengths under later suffixes |
| CrawlUrls.FavoriteIsSdist | src/crawl_urls.py:60-63 | A chosen file is an sdist of that version and ends with one of `tar.gz`, `.tgz`, `.zip`, `.tar.bz2` |
| CrawlUrls.StoredUrl | src/crawl_urls.py:65-68 | The stored URL is the file URL with the `https://files.pythonhosted.org/packages/` prefix removed |
| CrawlUrls.ReleasesDictKeys | src/crawl_urls.py:59-65 | A version appears in `releases_dict` iff a favourite sdist was found for it |
| CrawlUrls.ReleasesDictValue | src/crawl_urls.py:64-68 | The stored release of such a version holds the favourite's sha256 and stripped URL |
| CrawlUrls.ReleasesDictDistinct | src/crawl_urls.py:57-68 | `releases_dict` has distinct version keys |
| CrawlUrls.NormalizeName | src/crawl_urls.py:70 | Normalisation keeps the name's length |
| CrawlUrls.NormalizeIdempotent | src/crawl_urls.py:70 | Normalising twice is normalising once |
| CrawlUrls.NormalizeClean | src/crawl_urls.py:70 | A normalised name has no '_' and no ASCII capital letter, and every other character is kept |
| CrawlUrls.SavedEntryLookup | src/crawl_urls.py:50-70 | A package is written iff the response is not a 404 and some version qualified, under its normalised name, with distinct version keys |
| CrawlUrls.PkgsDict.constructor | src/crawl_urls.py:74 | The package dictionary opens holding exactly the contents already saved under the target directory |
| CrawlUrls.PkgsDict.SavePkgMeta | src/crawl_urls.py:44-70 | After the call the dictionary is unchanged on a 404 or an empty `releases_dict`; otherwise the normalised name maps to `releases_dict` |
| CrawlUrls.NamesInBuckets | src/crawl_urls.py:83-90 | The loop computes the grouping of the names by the bucket of their normalised name |
| CrawlUrls.GroupedLookup | src/crawl_urls.py:83-90 | A bucket is a key iff some name falls in it, and its list is the names of that bucket in input order |
| CrawlUrls.GroupedDistinct | src/crawl_urls.py:84-89 | Each bucket is a key at most once |
| CrawlUrls.NameInOneBucket | src/crawl_urls.py:85-89 | Each input name is listed under exactly one bucket, that of its normalised name |

## Left out

- Network access, retries and sleeps: XML-RPC listing, `session.get`, `urlopen`,
  `requests.get`, `resolve_redirect`. An HTTP response is a parameter of type
  `MetaResponse`. Non-404 errors, which the source retries forever, are not modelled.
- Temporary files, `zipfile` and `pkginfo.get_metadata` parsing are foreign libraries.
  An archive is a list of (name, bytes). The metadata fields are given as `Fields`.
- The Scrapy and Twisted orchestration (`CrawlerRunner`, `reactor`), `utils.parallel`, the
  `Measure` timer, the `/tmp/decomp` debug dump, the prints and `dump_dict.save()`. These
  are concurrency, framework plumbing or output.
- Behaviour after `exit()`: a failing `decompress` stops the process. The model returns
  the first error instead.
- `random.shuffle` is driven by a sequence of draws, and only "a permutation" is promised.
- `LazyBucketDict` is not part of this model. A bucket's registry and dump are association
  lists. `bucket` is a function parameter, and `bucket_keys()` is a list of hex strings.
  Loading the saved contents from disk is I/O: `CrawlUrls.PkgsDict` receives them as its
  constructor's argument.
- Aliasing: `decompress` stores the very dictionary object of the target entry, so two
  entries may share one object. The model works on values.
- `DumpDicts.DumpDict.ProcessResult`: the `isinstance(r, Exception)` return of
  `process_result` is modelled only in `MergeResults` (a `Failed` result).
- `find_favorite_format`: the first loop, which fills `ok_releases`, has no effect on the
  result and is not modelled.
- `CrawlUrls.Stored`: a missing `digests['sha256']` raises `KeyError` in the source. The
  model takes the digest as a field of every file.
- `CrawlUrls.NormalizeName`: `lower()` is modelled for ASCII letters only.
- `Jobs.ToHex`: the format of bucket keys comes from `LazyBucketDict.bucket_keys()`, which
  is not part of this model. `ToHex` is a reference rendering (zero-padded, lower-case)
  that `HexValueToHex` inverts. It is not taken from the source.
- `Jobs.BucketSkipped`: `int(x, 16)` is modelled only on strings of hex digits (no
  `0x`, sign, whitespace or underscores). The caller's precondition `SpidersReady` says
  so, since other strings raise `ValueError`.
- The `IndexError` and `KeyError` cases are preconditions (`Fetchable`, `SpiderReady`,
  `OldReady`, `NewReady`, `PypiFetchable`), because the source crashes there: `name[0]`
  on an empty name, `data[1]` on short wheel data, and the third '-'-field of a short
  filename.
- `Dedup.CompressInlineDistinct` assumes version and filename keys are free of '@' and
  every level's keys are distinct. Otherwise two positions can produce the same
  `ver@fn` key, the table assignment overwrites a document, and equal inline entries can
  survive.
- `Dedup.CompressStoreRoundTrip` and `Dedup.CompressStoreIdempotent` require `StoreReady`:
  every reference of the input names an inline entry of its group, every level's keys are
  distinct, and no version or filename key contains '@'. A reference to another reference
  is resolved by `decompress` in loop order, which the model states only through
  `DecompressGroup`. The key conditions are needed because `compress` writes a reference
  `f"{ver}@{fn}"`: with '@' in a key it reads back as more than two parts, and
  `decompress`'s `key_ver, key_fn = data.split('@')` (src/wheel_deps_spider.py:71) then
  fails. Distinct keys hold for every Python dictionary; the association lists of the
  model have to state them.
- The metadata document is compared by value. Python dictionary key order does not take
  part in `==`, so `sort` is the identity on a document.
