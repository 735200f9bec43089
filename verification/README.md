# Page loader: resource link extraction and rewriting

The page loader fetches one web page, rewrites the page's references to
images, stylesheets and scripts so that they point at local copies, and
downloads those resources. This project models the part of `src/index.js`
that decides which references are collected and how the page is rewritten.
That part is the tag table `tagTypes`, `findLinks` and `processResources`.

- `dom.dfy` (module `Dom`) models the parsed page as cheerio exposes it.
  The page is an array of elements in document order. Each element has a
  tag name and a map of attributes. The module also models the selectors
  `tag[attr]` and `tag[attr^='p']` and the bulk update
  `$(selector).attr(attr, value)`. Following section 6.3.2 of the W3C
  Selectors Level 3 recommendation, `[attr^='']` matches no element.
- `subsequences.dfy` (module `Subsequences`) defines `Positions`. It lists
  the indices of the elements that satisfy a predicate, in increasing order.
  It is used to state that a list is exactly a filtered view of its input,
  in the original order, with duplicates kept.
- `page_loader.dfy` (module `PageLoader`) holds the tag table
  (img→src, link→href, script→src, in that order). `FindLinks` is a method
  with nested loops, proved against the function `FoundLinks`.
  `ProcessResources` is a method that calls `FindLinks` and then folds over
  the links. It rewrites the page array in place and accumulates the
  `{urlPath, localPath}` pairs. It is proved against `RewriteAll` (the page
  after the fold) and `KeptLinks` (the fold's accumulator).

The page's own path (`currentPage`), the page address (`host`),
`relativeDirPath` and the path separator are inputs. `getPathName` is a
parameter of type `string -> string` that the model never interprets.

Two behaviours of the code are kept on purpose:

- A non-self reference is rewritten to `relativeDirPath + sep + localPath + ")}"`.
  The `)}` is a stray suffix in the template at `src/index.js:52`.
- The rewrite for a link uses a prefix match, so it also changes every
  element of that tag whose value merely starts with the link's value.
  `PrefixRewriteReachesExternalReference` shows one consequence. An
  `<img src="ht">` beside an `<img src="http://cdn.example/logo.png">`
  causes the external image to be rewritten, although it was never
  collected. `StaleLinkStillReturned` shows another. A link whose elements
  an earlier, shorter link already rewrote matches nothing, but its pair is
  still returned.

Two further consequences of the code are worth stating plainly:

- The code drops values that start with `http`, not every absolute URL.
  `https://…` and a relative `httpdocs/x` are dropped, while `ftp://…` and
  `//cdn…` are collected.
- Because of the prefix match, an `http` reference or a reference to the
  page's own path can still be rewritten by the step for another link.

## Model

| member | source | states |
|---|---|---|
| `PageLoader.AttributeOf` | src/index.js:18-22 | `tagTypes[tag]` is the attribute of a row of the table for that tag |
| `PageLoader.AttributeOfRow` | src/index.js:18-22 | each row's tag looks up exactly that row's attribute (img→src, link→href, script→src) |
| `PageLoader.FindLinks` | src/index.js:24-38 | the nested loops collect exactly `FoundLinks` of the page: row by row in table order, and within a row the candidates in document order |
| `PageLoader.LinksOfTagSpec` | src/index.js:30-35 | one row's links are exactly one link per candidate element (tag matches, attribute present, value starts neither with "http" nor "#"), in increasing document position, each with the element's value and the self-reference local path |
| `PageLoader.LinksOfTagSound` | src/index.js:30-34 | every link of a row carries the row's tag, comes from an element of that tag that has the row's attribute with that value, never starts with "http" or "#", and has localPath = host if urlPath = currentPage, else getPathName(urlPath) |
| `PageLoader.FoundLinksSound` | src/index.js:28-35 | every link `findLinks` returns has a table tag, comes from an element carrying that tag's attribute with exactly that value, starts neither with "http" nor "#", and has localPath = host if urlPath = currentPage, else getPathName(urlPath) |
| `PageLoader.FoundLinksOrder` | src/index.js:28-36 | the collected list is all img links, then all link links, then all script links (order across rows only, by unrolling the table; document order within a row is `LinksOfTagSpec` with `PositionsSpec`) |
| `Dom.SetAttrOnMatches` | src/index.js:52 | `$(tag[attr^='p']).attr(attr, v)`: every selected element gets v for attr; unselected elements are unchanged; every tag, every attribute name and every other attribute value is kept |
| `Dom.SetAttrOnMatchesInPlace` | src/index.js:48 | the in-place update leaves the page array equal to `SetAttrOnMatches` of the old page |
| `PageLoader.RewrittenValue` | src/index.js:52 | the rewritten value starts with relativeDirPath + sep, ends with the stray ")}", and is exactly two characters longer than relativeDirPath + sep + localPath |
| `PageLoader.ApplyLink` | src/index.js:44-53 | one fold step: elements of the link's tag whose attribute starts with urlPath get host (self-reference) or the rewritten value (otherwise); every other element and every other attribute is unchanged |
| `PageLoader.ProcessResources` | src/index.js:40-56 | the page array afterwards is `RewriteAll` of the old page over the collected links, and the returned list is `KeptLinks` of those links |
| `PageLoader.FoldStep` | src/index.js:43-54 | one more link extends the page rewrite by one `ApplyLink` and extends the accumulator by the link's pair unless it is a self-reference |
| `PageLoader.KeptLinksSpec` | src/index.js:43-54 | the returned list has one entry per non-self link, in the links' original order, duplicates kept, each entry being that link's {urlPath, localPath} |
| `PageLoader.KeptLinksBounds` | src/index.js:46-53 | the returned list is never longer than the link list, and no entry has urlPath = currentPage |
| `PageLoader.ProcessResourcesBounds` | src/index.js:42-55 | `processResources` returns no more entries than `findLinks` collected, and none of them is a self-reference |
| `PageLoader.ProcessResourcesSound` | src/index.js:30-53 | every returned pair has an address that starts neither with "http" nor with "#" and is not the page's own path, and a local path equal to getPathName of that address |
| `PageLoader.RewriteAllFrame` | src/index.js:43-54 | after the whole fold the page has the same elements in the same order, with the same tags and attribute names; elements of tags outside the table are unchanged; attributes other than a tag's table attribute are unchanged |
| `PageLoader.RewriteAllKeepsFragments` | src/index.js:43-54 | if no link value starts with "#", no element whose table attribute starts with "#" is ever rewritten |
| `PageLoader.FragmentReferencesUntouched` | src/index.js:40-55 | on any page, `processResources` leaves every "#" reference of a table tag's attribute unchanged |
| `PageLoader.PrefixRewriteReachesExternalReference` | src/index.js:52 | with img src "ht" and img src "http://cdn.example/logo.png", only "ht" is collected, yet the external image's src becomes relativeDirPath + sep + getPathName("ht") + ")}" |
| `PageLoader.NestedImagesLinks` | src/index.js:28-35 | on img "/a" then img "/a/b", both are collected in document order with their derived local paths |
| `PageLoader.NestedImagesRewrite` | src/index.js:52 | the rewrite for "/a" also rewrites the "/a/b" image, and the rewrite for "/a/b" then changes nothing |
| `PageLoader.StaleLinkStillReturned` | src/index.js:43-54 | on that page both images end with the "/a" rewrite, but both pairs ("/a" and "/a/b") are returned |

## Left out

- `saveResources` (`src/index.js:60-73`) is not modelled. It downloads through `download` and `url.resolve`, fans out with `Promise.all`, waits on a `setTimeout` backoff, and appends to the shared `taskList`. All of that is network I/O and concurrency.
- The default export (`src/index.js:75-93`) is not modelled. It chains `fs.mkdir` and `save`, runs the Listr progress display, logs debug output and wraps errors in `ProjectError`. All of that is filesystem I/O and orchestration.
- Parsing with `cheerio.load` and serialising with `$.html()` are not modelled. The page is taken already parsed as an element array. `ProcessResources` returns only the link list, and the rewritten array stands for the returned markup.
- `url.parse(host).pathname` is not modelled. `currentPage` is an input string. A null pathname would equal no attribute value.
- `getPathName`, `normalize` and `getInputData` from `./utils` are not part of this model. `getPathName` is an uninterpreted parameter.
- The path separator `path.sep` is an input string.
- Selector injection is not modelled. The code builds the selector by splicing `urlPath` between quotes, so a value that contains a quote would change the selector. Values are assumed to be selector-safe.
- Debug logging (`debug$`) is not modelled, because it has no effect on the result.
- `src/bin/page-loader.js` is not part of this model. It is command-line glue: commander, `console.error` and `process.exit`.
- `PageLoader.FoundLinksSound`: states localPath = (if urlPath = currentPage then host else getPathName(urlPath)). It does not state "localPath = host exactly when urlPath = currentPage". That would only hold if `getPathName` never returned `host`, and `getPathName` is not part of this model.
