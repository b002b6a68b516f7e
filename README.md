# Debsources source-archive views and sources-list ingestion, in Dafny

This project models two parts of Debsources, the web front end of an archive of
unpacked Debian source packages.

- **Request side** (`web/flask/app/views.py`):
  - how a `/src/<path_to>` address is split into package, version and sub-path;
  - how the version alias `latest` becomes a redirect to the newest listed version;
  - how a location is classified as a 404, a 403 (symbolic link), a directory or a file;
  - how the view exceptions become HTTP error pages;
  - how a search query is stripped of SQL wildcards and how the exact match is kept out of the other results.
- **Ingestion** (`web/dbutils.py`, `sources2db`): how a sources list becomes package rows and version rows.

Everything in `views.py` that is modelled is pure: it is written as functions over strings, sequences
and abstract inputs. `sources2db` updates a set, a list and a dictionary in loops, so it is written as
methods with loop invariants. The methods are proved against a declarative function, `Ingest`.

Files:

- `wrappers.dfy`: `Option` and `Result`.
- `path_strings.dfy`: `str.split` and `str.join` on one separator, and `str.replace(c, '')`.
- `version_order.dfy`: the version comparator as a parameter, and the stable sort behind `sorted(..., cmp=version_compare)[-1]`.
- `http_errors.dfy`: `GeneralView.dispatch_request` and `deal_error`.
- `source_view.dfy`: `SourceView`.
- `search_view.dfy`: `SearchView`.
- `sources_ingest.dfy`: `sources2db`.

External collaborators are inputs to the model:

- The package registry (`Package_app.list_versions_from_name`) is a function from a name to an optional
  version list. `None` stands for `InvalidPackageOrVersionError`.
- Constructing a `Location` and its `issymlink`, `is_dir` and `is_file` tests are one lookup result.
- `version_compare` is a `cmp`-style function. It returns a negative number, zero or a positive number.
- The two search queries are two functions of the sanitised query, each returning `None` when the database raises:
  the exact-name query (inside the view's `try`) and the containing-name query (run lazily, outside it).
- The ids the database assigns are a function from package name to id.

Among versions that compare equal, the code takes the last one in listing order (stable sort, then
`[-1]`); `VersionOrder.IsLastMaximum` states this.

## Model

| member | source | states |
|---|---|---|
| `PathStrings.Split` | web/flask/app/views.py:495 | `path_to.split('/')` gives at least one piece, no piece contains `/`, and there is exactly one piece iff the string has no `/` |
| `PathStrings.Join` | web/flask/app/views.py:480-482 | `'/'.join(parts)` of a non-empty list starts with its first piece |
| `PathStrings.JoinLength` | web/flask/app/views.py:480-482 | a join is as long as its pieces together plus one separator per gap |
| `PathStrings.JoinSplit` | web/flask/app/views.py:495-503 | joining the pieces of a split with the same separator gives back the original string |
| `PathStrings.SplitJoin` | web/flask/app/views.py:480-482 | splitting a join of one or more separator-free pieces gives back exactly those pieces |
| `PathStrings.RemoveAll` | web/flask/app/views.py:218 | `replace(c, '')` leaves no `c`, keeps the count of every other character, and shortens the string by the number of `c`s |
| `PathStrings.RemoveAllAppend` | web/flask/app/views.py:218 | removal works piecewise over a concatenation, so the kept characters stay in their original order |
| `PathStrings.RemoveAllAbsent` | web/flask/app/views.py:218 | removing a character that does not occur returns the string unchanged |
| `VersionOrder.Insert` | web/flask/app/views.py:475-476 | one stable insertion step adds exactly one element (multiset), and the new last element is `x` iff `x` is not smaller than the old last |
| `VersionOrder.StableSort` | web/flask/app/views.py:475-476 | `sorted(versions, cmp=...)` returns a permutation of its input (same length, same multiset) |
| `VersionOrder.StableSortOrdered` | web/flask/app/views.py:475-476 | under a valid comparator the sorted list never descends, between neighbours or between any two positions |
| `VersionOrder.InsertOrdered` | web/flask/app/views.py:475-476 | inserting into an ordered list keeps it ordered when the comparator's sign flips with its arguments |
| `VersionOrder.OrderedIsSorted` | web/flask/app/views.py:475-476 | with a transitive comparator, neighbours in order means every pair is in order |
| `VersionOrder.LatestVersion` | web/flask/app/views.py:475-476 | `sorted(...)[-1]` exists exactly for a non-empty list, and is then one of the listed versions |
| `VersionOrder.LastMaximumIndex` | web/flask/app/views.py:475-476 | the chosen position is in range and every later version compares strictly smaller, for any comparator |
| `VersionOrder.LastMaximumIndexIsLastMaximum` | web/flask/app/views.py:475-476 | under a valid comparator no listed version compares greater than the chosen one |
| `VersionOrder.LastMaximumUnique` | web/flask/app/views.py:475-476 | at most one position is a maximum with only strictly smaller versions after it, so the choice is determined |
| `VersionOrder.SortedLastIsLastMaximum` | web/flask/app/views.py:475-476 | the last element of the stable sort is the last of the equal maxima in listing order |
| `VersionOrder.LatestVersionIsLastMaximum` | web/flask/app/views.py:475-476 | `sorted(...)[-1]` on a non-empty list is a listed version, and no listed version compares greater |
| `HttpErrors.ErrorPageFor` | web/flask/app/views.py:120-147 | each `deal_<code>_error` gives a page carrying its code, JSON exactly when the mode is `json`, else the template `404.html`, `500.html` or `403.html` |
| `HttpErrors.DealError` | web/flask/app/views.py:109-147 | codes 404, 500 and 403 get their handler's page (`ErrorPageFor`), carrying that code, as JSON exactly when the mode is `json`; any other code fails with "Unimplemented HTTP error" |
| `HttpErrors.DispatchRequest` | web/flask/app/views.py:85-98 | a returned context is rendered; `Http500Error`, `Http404Error` and `Http403Error` get `deal_error`'s page for 500, 404 and 403 in the route's mode (JSON on `/api` routes, a template otherwise); other exceptions escape; `deal_error` never raises on this path |
| `SourceView.ParseSourcePath` | web/flask/app/views.py:495-503 | an address is a package request iff it has no `/`; otherwise package and version are separator-free and the address is `package/version/sub-path`, or `package/version` with an empty sub-path |
| `SourceView.LocationAddress` | web/flask/app/views.py:478-482 | the redirect address is `package/version`, followed by `/path` only when the sub-path is not empty |
| `SourceView.ParseLocationAddress` | web/flask/app/views.py:479-482 | the redirect address built from package, version and sub-path parses back to that same package, version and sub-path |
| `SourceView.RenderPackage` | web/flask/app/views.py:387-403 | an unknown package is 404; a known one gets a package page listing its versions |
| `SourceView.RenderDirectory` | web/flask/app/views.py:429-433 | a directory listing is toplevel exactly when the sub-path is empty |
| `SourceView.RenderLocation` | web/flask/app/views.py:405-427 | a failed lookup is 404; a symbolic link is 403 whatever its dir/file tests say; otherwise a directory is listed, a file is shown, and anything else is 404 |
| `SourceView.HandleLatestVersion` | web/flask/app/views.py:464-485 | an unknown package is 404; a known package with an empty version list raises the escaping IndexError; a known package with versions gets a redirect, and a redirect is the only success |
| `SourceView.GetObjects` | web/flask/app/views.py:487-508 | an address without `/` gets `_render_package`; otherwise a `latest` version gets `_handle_latest_version` and any other version `_render_location` of the parsed package, version and sub-path; a package page only comes from such an address, a redirect only from a `latest` version, a directory or file only from a concrete version; only 404, 403 and the escaping IndexError are raised |
| `SourceView.PackagePageIffNoSlash` | web/flask/app/views.py:495-498 | a package page is served exactly for a known package name with no `/` in the address |
| `SourceView.UnknownPackageIsNotFound` | web/flask/app/views.py:392-395 | an unknown package gives 404 on its package page and on `latest`, before any version is chosen |
| `SourceView.LatestOnlyRedirects` | web/flask/app/views.py:505-506 | a `latest` address is never answered with a rendered location: only a redirect, a 404 or the escaping IndexError |
| `SourceView.ReplaceLatestSegment` | web/flask/app/views.py:478-482 | the redirect address is the requested one with `latest` replaced by the version, except that `package/latest/` loses its trailing `/` |
| `SourceView.LatestRedirectsToNewest` | web/flask/app/views.py:464-485 | for a known package with versions, `latest` redirects to the last maximum under the comparator, at the same sub-path, and that address parses to the concrete version |
| `SourceView.ToplevelIffVersionRoot` | web/flask/app/views.py:433 | a rendered directory is toplevel exactly for the addresses `package/version` and `package/version/` |
| `SourceView.SymlinkIsForbidden` | web/flask/app/views.py:416-418 | a concrete-version address whose location is a symbolic link ends as a 403 error page in either output mode |
| `SearchView.Sanitise` | web/flask/app/views.py:218 | the sanitised query contains neither `%` nor `_` and keeps every other character the same number of times |
| `SearchView.SanitiseAppend` | web/flask/app/views.py:218 | sanitising works piecewise over a concatenation, so the kept characters stay in their original order |
| `SearchView.SanitiseWildcardFree` | web/flask/app/views.py:218 | a query without `%` and `_` passes through unchanged |
| `SearchView.SanitiseIdempotent` | web/flask/app/views.py:218 | sanitising a sanitised query changes nothing |
| `SearchView.ExcludeExact` | web/flask/app/views.py:231-236 | the exact match never appears among the other results; every other occurrence is kept (same multiset apart from the exact match), and nothing is removed when there is no exact match |
| `SearchView.ExcludeExactAppend` | web/flask/app/views.py:236 | the filter works piecewise over a concatenation, so the remaining rows keep their name order |
| `SearchView.SearchGetObjects` | web/flask/app/views.py:216-240 | a database failure in the exact-name query is 500; one in the lazy containing-name query, which runs outside the `try`, escapes; otherwise the context carries the wildcard-free query, the exact match, and the name-ordered other results with the exact match filtered out (`ExcludeExact`, order and multiplicity kept) |
| `SourcesIngest.SourcesToDb` | web/dbutils.py:34-65 | the loops produce exactly `Ingest`: an IndexError if any line has fewer than three columns; otherwise the set of first columns, one `(cols[0], cols[1], cols[2])` triple per line in order, the name-to-id map, and one version row per line with `vnumber = cols[1]`, `area = cols[2]` and the id of `cols[0]` |
| `SourcesIngest.BuildPackids` | web/dbutils.py:57-59 | the `packids` dictionary has exactly the inserted package names as keys, each mapped to its id |
| `SourcesIngest.ShortLineAborts` | web/dbutils.py:47-49 | one line with fewer than three columns, a blank line included, aborts the whole ingestion |
| `SourcesIngest.DuplicateNamesCollapse` | web/dbutils.py:43-53 | there are never more package rows than lines, and exactly as many only when no package name repeats |
| `SourcesIngest.ExtraColumnsIgnored` | web/dbutils.py:47-49 | lines that agree on their first three columns load identically, whatever follows |
| `SourcesIngest.RowsReferenceInsertedPackages` | web/dbutils.py:48-62 | every triple's package is among the inserted packages; its row's id is `packids` of that name; with distinct ids no other package row has that id |

## Left out

- Flask plumbing is not modelled: routing (`add_url_rule`), `render_template`, `jsonify`, `redirect` and `url_for`.
  This includes `render_source_file_html` and `render_source_file_json`, and the redirect of non-text files to their raw URL.
- `url_for_other_page` and the `Pagination` class are not modelled.
- The static pages, `receive_search` form validation and the `ping` database check are not modelled: they are presentation and I/O.
- The `last-update` file read in `skeleton_variables` is not modelled: it is file I/O.
- `ListpackagesView`, `PrefixView` and `ChecksumView` are not modelled.
  - The first two are SQLAlchemy queries.
  - `ChecksumView` passes the raw checksum to a lookup that is not part of this model.
- `_get_pts_link` and `_get_vcs` are not modelled: they are URL quoting and a database query.
  The `try` in `_get_vcs` (web/flask/app/views.py:373-385) turns a database error into `Http500Error`, and so also the
  AttributeError raised when `.first()` finds no `Version_app` row. An existing directory or file without a version
  row therefore gets a 500 in the source, where the model returns a `DirectoryPage` or `FilePage`.
  The page contexts carry no PTS link and no VCS data.
- `Location`, `Directory`, `SourceFile` and `Checksum_app` live in `models_app`, which is not part of this model.
  Their symbolic-link walk, directory listing, MIME detection, raw URL and permissions are inputs or absent.
- `version_compare` is a parameter. The maximality and sortedness lemmas assume it is a valid comparator: reflexive, sign-symmetric and transitive.
- VersionOrder.StableSort: this is an insertion sort standing in for Python's stable sort. Under a valid comparator every stable sort returns the same list, but that is not proved here.
- HttpErrors.DealError: `deal_500_error` also writes to the application log, and that is not modelled.
  The HTTP status of a JSON error response is not modelled either (`jsonify` answers 200); the page carries the code.
- HttpErrors.DispatchRequest: an exception that escapes the view (`Escaped`) goes to the 500 handler registered at
  web/flask/app/views.py:139-141. It calls `deal_500_error(e)` in HTML mode, even on `/api` routes; that handler is not modelled.
- SearchView.SearchGetObjects: the two queries are inputs: the exact match by name, and the names containing the query ordered by name.
  Result rows are compared by value, as the dictionaries from `to_dict` are.
- The engine and session setup, `drop_all`/`create_all` and the bulk inserts in `sources2db` are not modelled: they are database I/O.
  The inserted rows are the method's result.
- SourcesIngest.BuildPackids: the `packids` loop iterates over the package rows read back from the database.
  The model assumes these are exactly the rows just inserted, with ids given by the id function.
  Rows already in the table when `drop` is false are not modelled.
- SourcesIngest.SourcesToDb: reading the file and `line.split()` are not modelled. Each line arrives as its list of whitespace-separated columns.
