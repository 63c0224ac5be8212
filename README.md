# Phishing detector: the HTML reducer, in Dafny

This project models the core of the phishing-detection backend (`backend/app.py`). Before
the backend sends an e-mail to a language model, it shrinks the e-mail's HTML to fit a word
budget (`simplify_html`). It then turns the model's reply into a verdict, and falls back
to a fixed verdict when the reply is not JSON. The project proves properties of both.

The parsed e-mail is a forest of `Node`s: elements with tag, ordered attributes and
children, text nodes, and comments (`dom.dfy`). `Elements(f)` is the document-order element
list that `find_all()` returns. The in-place edits `decompose`, `unwrap` and attribute
assignment are `EditAt(f, j, op)` on the element at position `j` of that list.

`str(soup)` is `Serialize`; `get_text()` is `TextOf` (`markup.dfy`). `length_token` is
`LengthToken`, the length of Python's `str.split()` (`words.dfy`).

The soup that `simplify_html` edits is the class `Reducer.Soup`: a `roots` field that its
methods change stage by stage, each with its own loop (`reducer.dfy`).

Every `for … in soup.find_all()` loop runs over a snapshot taken before the loop. Each
method walks that snapshot with a live position into the current tree. Each method's
postcondition states the new tree as a reference function of the old one, defined
independently and top-down:
- `StripNoise` and `StripComments` (`noise.dfy`).
- `UnwrapAll` (`unwrap.dfy`).
- `Pruned` (`prune.dfy`). It shares `Purge` (`removal.dfy`) with `StripNoise`.
- `RewriteAll` (`links.dfy`).
- `Trimmed` (`trim.dfy`).

The proofs of these methods rest on lemmas about one edit:
- After a `decompose` or an `unwrap` at position `j`, the live list from `j` on is some
  suffix of the snapshot.
- The elements before `j` change only below themselves.
- One snapshot step leaves the reference function unchanged.

The properties the source relies on are then lemmas about those functions.

`Reducer.SimplifyHtml` composes the stages as lines 38-83 do. It is proved equal to
`Serialize(Reduce(doc))`, where `Reduce` composes the reference functions.

`Url.ShortenUrl` models `re.sub(r"(http[s]?://)?(www\.)?", "", url).split('/')[0]` exactly.
The scan tries the pattern at every position, deletes each non-empty match and steps over
one character otherwise. So the removal is **not** anchored at the start of the value.
One might expect only a leading scheme and `www.` to go, but the pattern is unanchored:
`Url.StripRemovesInnerWww` shows a `www.` in the middle of a value being removed.

`verdict.dfy` models the reply handling of `classify_email`.

The two thresholds differ. The early return needs fewer than 3000 words. The trim loop
stops at 3000 or fewer. A tree with exactly 3000 words after stage 0 therefore goes through
stages 1-4, and stage 4 then leaves it alone.

## Model

| member | source | states |
|---|---|---|
| Words.LengthToken | backend/app.py:34-35 | `len(text.split())`; `LengthTokenCountsRuns`, `LengthTokenZero` and `SubLengthToken` state what it counts |
| Words.LengthTokenCountsRuns | backend/app.py:34-35 | `length_token` equals the number of maximal runs of non-whitespace characters |
| Words.LengthTokenZero | backend/app.py:34-35 | the count is 0 exactly when the string is empty or whitespace only |
| Words.SplitKeepsCharacters | backend/app.py:34-35 | joining the words of `split()` gives back every non-whitespace character, in order |
| Words.SubLengthToken | backend/app.py:34-35 | deleting characters from a string never increases its word count |
| Url.HostPart | backend/app.py:69 | `.split('/')[0]` is a prefix of the value with no `/`, ending at the value's end or just before its first `/` |
| Url.StripPrefixes | backend/app.py:69 | the unanchored `re.sub` scan; its result is never longer than the value; `StripKeepsHead` and `StripIsSub` state what it keeps and deletes |
| Url.ShortenUrl | backend/app.py:69 | the rewritten value holds no `/` and is never longer than the original |
| Url.StripKeepsHead | backend/app.py:69 | a head in which no match starts survives the scan unchanged |
| Url.ShortenFullUrl | backend/app.py:69 | `http://` or `https://` (optional), then `www.` (optional), then a host with no `/`, `http:`, `https:` or `www.` in it, then nothing or `/` and any path, becomes the host |
| Url.ShortenExample | backend/app.py:69 | a typical tracking link, `https://www.example.com/path/to/page?q=1`, becomes `example.com`, and `https://github.com/login` becomes `github.com` |
| Url.ShortenKeepsPlainHost | backend/app.py:69 | a value with no `/`, `http://`, `https://` or `www.` anywhere is left unchanged |
| Url.StripRemovesInnerWww | backend/app.py:69 | the removal is unanchored: a `www.` after a prefix with no `h` or `w` is deleted too |
| Url.ShortenIsSub | backend/app.py:69 | the rewritten value is the original with characters deleted |
| Dom.EditAt | backend/app.py:44-80 | `decompose`, `unwrap` and attribute assignment on the element at a `find_all()` position; `EditSuffix`, `EditPrefix` and `EditLength` state their effect |
| Dom.ForestSubtree | backend/app.py:56 | in the `find_all()` list every element is followed directly by its own subtree |
| Dom.EditSuffix | backend/app.py:44 | after an edit at `j`, the list from `j` on is the edit's replacement followed by what came after the subtree |
| Dom.EditPrefix | backend/app.py:44 | after an edit at `j`, each earlier element is unchanged, or, if it is an ancestor, only its subtree below is edited |
| Dom.EditLength | backend/app.py:80 | an edit removes exactly the subtree's size (`decompose`), one (`unwrap`) or no (attribute assignment) positions from the list |
| Markup.Serialize | backend/app.py:48 | `str(soup)`; the `…Sub` lemmas state that every stage only deletes characters of it |
| Markup.Blank | backend/app.py:63 | `not tag.get_text(strip=True)`: the element's text is whitespace only; `DecomposeKeepsBlank` and `Prune.PruneLeavesText` state its role |
| Markup.DecomposeSub | backend/app.py:80 | decomposing an element deletes characters from the markup |
| Markup.DecomposeBlankText | backend/app.py:63-64 | decomposing a blank element keeps every non-whitespace character of the text |
| Markup.DecomposeKeepsBlank | backend/app.py:63-64 | decomposing a blank element changes no ancestor's blankness |
| Markup.TextOfStrings | backend/app.py:63 | `get_text()` is the concatenation of the text nodes |
| Removal.PurgeStep | backend/app.py:43-44 | decomposing a selected element whose ancestors keep their verdict leaves the top-down reference unchanged |
| Removal.PurgeNone | backend/app.py:43-44 | a tree with no selected element is its own reference |
| Removal.PurgeSub | backend/app.py:43-44 | the reference is the original markup with characters deleted |
| Noise.IsNoise | backend/app.py:43 | the `soup(["style", "script"])` selector; `NoNoiseLeft` states that no selected element survives |
| Noise.NoiseStep | backend/app.py:43-44 | decomposing one `style`/`script` element leaves `StripNoise` unchanged |
| Noise.NoNoiseLeft | backend/app.py:43-44 | no `style` or `script` element is left |
| Noise.DropFirstComment | backend/app.py:46 | `comment.extract()` on the first comment left; `DropFirstCommentCount` and `DropFirstCommentStrip` state its effect |
| Noise.DropFirstCommentCount | backend/app.py:45-46 | extracting the first comment removes exactly one comment |
| Noise.DropFirstCommentStrip | backend/app.py:45-46 | extracting the first comment leaves the comment-free tree unchanged |
| Noise.StripCommentsNone | backend/app.py:45-46 | a tree without comments is its own comment-free form |
| Noise.NoCommentLeft | backend/app.py:45-46 | no comment is left |
| Noise.StripCommentsTags | backend/app.py:45-46 | removing comments keeps every element's tag, in order |
| Noise.CleanLeavesNoNoise | backend/app.py:43-48 | after stage 0 no tag is `style` or `script` and no comment remains |
| Noise.CleanSub | backend/app.py:43-48 | stage 0 only deletes characters of the markup |
| Unwrap.Unimportant | backend/app.py:57 | the `tag.name not in important_tags` test; `UnwrapLeavesImportant` states that no element passing it survives |
| Unwrap.UnwrapStep | backend/app.py:56-58 | unwrapping one unimportant element leaves `UnwrapAll` unchanged |
| Unwrap.UnwrapSuffix | backend/app.py:56-58 | after an unwrap at `j` the live list from `j` on is the old list from `j + 1` on, so no snapshot entry goes stale |
| Unwrap.UnwrapPrefixTag | backend/app.py:56-58 | an unwrap keeps the tag of every earlier element |
| Unwrap.UnwrapNone | backend/app.py:56-58 | a tree of important elements only is its own reference |
| Unwrap.UnwrapTags | backend/app.py:55-58 | the tags left are the original tags with the unimportant ones taken out, in order |
| Unwrap.UnwrapLeavesImportant | backend/app.py:55-58 | every remaining element's tag is one of p, a, img, strong, em, h1, h2, h3 |
| Unwrap.KeepImportant | backend/app.py:55 | the kept tags are important tags of the input |
| Unwrap.UnwrapStrings | backend/app.py:56-58 | the sequence of text nodes is unchanged, in the same order |
| Unwrap.UnwrapText | backend/app.py:56-58 | `get_text()` is unchanged |
| Unwrap.UnwrapSub | backend/app.py:56-58 | unwrapping only deletes characters of the markup |
| Prune.AboveTarget | backend/app.py:62 | the element `j` positions into an ancestor's subtree is the one at `j` in the document list |
| Prune.PruneStep | backend/app.py:62-64 | decomposing one blank element leaves `Pruned` unchanged |
| Prune.PruneText | backend/app.py:62-64 | no non-whitespace character of the text is lost: no element holding text is removed |
| Prune.PruneLeavesText | backend/app.py:62-64 | every remaining element holds some non-whitespace text |
| Prune.PruneDropsChildless | backend/app.py:62-64 | no element without children, such as `img`, survives |
| Prune.PruneSub | backend/app.py:62-64 | pruning only deletes characters of the markup |
| Links.HasAttr | backend/app.py:68 | the `href=True` / `src=True` filter: the attribute is present; `RewriteOnlyTargets` states its role |
| Links.Targets | backend/app.py:68-70 | `find_all("a", href=True)` and `find_all("img", src=True)`: the tag matches and the attribute is present; `RewriteOnlyTargets` and `RewriteAllElements` state which elements change |
| Links.ShortenAttrs | backend/app.py:69 | the attribute named `name` gets the rewritten value; every other attribute and every name is kept |
| Links.RewriteFirstNone | backend/app.py:68-71 | before any round the tree is as it was |
| Links.RewriteStep | backend/app.py:68-71 | round `j` edits element `j`'s attributes exactly when it is a target (right tag, has the attribute) |
| Links.RewriteFirstAll | backend/app.py:68-71 | after a round for every element the tree is `RewriteAll` |
| Links.RewriteFirstSize | backend/app.py:68-71 | the rounds do not change the number of elements |
| Links.RewriteAllElements | backend/app.py:68-71 | every element keeps its tag and gets its attribute list retargeted, in document order |
| Links.RewriteOnlyTargets | backend/app.py:68-71 | only `a`/`img` elements with `href`/`src` change, only in that attribute, to the rewritten value |
| Links.RewriteStrings | backend/app.py:68-71 | the text nodes are unchanged |
| Links.RewriteSub | backend/app.py:68-71 | the rewrite only deletes characters of the markup |
| Trim.Midpoint | backend/app.py:79 | `len(tags) // 2`; `TrimRound` states that it indexes an element and what decomposing it does |
| Trim.TrimRound | backend/app.py:76-80 | a round decomposes element `len // 2` with its subtree; earlier elements stay, later ones follow in order; the count strictly falls |
| Trim.TrimmedBudget | backend/app.py:75-78 | the loop ends with at most 3000 words or with no element left |
| Trim.RoundsBound | backend/app.py:75-81 | the loop makes at most as many rounds as the tree had elements (`TrimToBudget` counts its rounds as `Rounds`) |
| Trim.TrimmedSub | backend/app.py:75-81 | trimming only deletes characters of the markup |
| Reducer.Soup.ToString | backend/app.py:48 | `str(soup)` on the current tree, at lines 48, 59, 65, 72 and 81; it is `Markup.Serialize` of `roots` |
| Reducer.Soup.constructor | backend/app.py:40 | the soup holds the parsed document |
| Reducer.Soup.RemoveNoise | backend/app.py:43-44 | the snapshot loop leaves exactly `StripNoise` of the tree |
| Reducer.Soup.RemoveComments | backend/app.py:45-46 | the snapshot loop leaves exactly `StripComments` of the tree |
| Reducer.Soup.UnwrapUnimportant | backend/app.py:55-58 | the snapshot loop leaves exactly `UnwrapAll` of the tree |
| Reducer.Soup.RemoveEmpty | backend/app.py:62-64 | the snapshot loop leaves exactly `Pruned` of the tree |
| Reducer.Soup.ShortenLinks | backend/app.py:68-71 | the snapshot loop leaves exactly `RewriteAll` of the tree |
| Reducer.Soup.TrimToBudget | backend/app.py:75-81 | the while loop leaves exactly `Trimmed` of the tree, after exactly `Rounds` decompositions |
| Reducer.Reduce | backend/app.py:38-83 | the stages composed as the function composes them; `SimplifyHtml` is proved to print it, and `ReduceBudget` and `ReduceNeverGrows` state its properties |
| Reducer.SimplifyHtml | backend/app.py:38-83 | the result is `Serialize(Reduce(doc))`; it is within budget or has no element left; below 3000 words after stage 0 it is that markup as is |
| Reducer.ReduceBudget | backend/app.py:50-83 | the result has at most 3000 words or no element |
| Reducer.ReduceNeverGrows | backend/app.py:38-83 | the result is the input markup with characters deleted, so it never has more words |
| Verdict.Respond | backend/app.py:127-138 | the response has the single key `result`; it holds the parsed reply unchanged and unvalidated when the reply parses, and the fallback otherwise |
| Verdict.Decide | backend/app.py:127-136 | `response_json`: the parsed reply, or the fallback when the parse fails; `Respond` states both cases |
| Verdict.Fallback | backend/app.py:129-136 | the fallback verdict; `FallbackFields` states its keys and values |
| Verdict.FallbackFields | backend/app.py:129-136 | the fallback has five keys, in order: is_phishing false, phishing_score 0, brand_impersonated null, rationales the raw reply, brief_reason "Parsing error" |

## Left out

- The FastAPI endpoint, the CORS middleware and the catch-all `{"error": ...}` wrapper (backend/app.py:22-31, 110-141) are HTTP plumbing.
- Configuration loading and the Gemini call (backend/app.py:12-20, 124-125) depend on an external service. The reply text is a parameter.
- HTML parsing is a library whose output is taken as given (backend/app.py:39-40). `SimplifyHtml` takes the parsed tree.
- The tree has no doctype, CDATA or processing-instruction nodes. Entity decoding is not modelled.
- Serialisation (backend/app.py:48) is a simple serialiser of the model's own. It does no escaping. It prints void elements with a closing tag. It writes each attribute as ` name="value"`. It does not join multi-valued attributes such as `class`.
- `json.loads` (backend/app.py:128) is library parsing. Its outcome is an `Option<Json>`.
- A JSON number with a fraction or exponent is a `JReal`, an exact rational. The rounding of Python's `float` is not modelled. `json.loads` also accepts `NaN`, `Infinity` and `-Infinity` by default, and `Json` cannot hold them. No property depends on them, since `Verdict.Respond` passes a parsed value through unchanged.
- Text nodes are plain strings. The parser's typed strings are not modelled: text inside `<template>`, `<rt>` and `<rp>` is stored as a template or ruby string, and `get_text()` on other tags skips it. Such text stays after its wrapper is unwrapped (backend/app.py:58). The model's `get_text()` counts it, so Prune.PruneText and Prune.PruneLeavesText do not cover it. For `<p><template>Verify now</template></p>` the source decomposes the `<p>` at backend/app.py:63-64 and loses the text, while the model keeps it.
- The UTF-8 decode with `errors="ignore"` (backend/app.py:115) is codec behaviour.
- The prompt template (backend/app.py:86-107) embeds the content unchanged and holds nothing to prove.
- Elements are identified by their position in document order, not by object identity. Two equal subtrees are indistinguishable, which no stage depends on.
- Reducer.Soup.RemoveNoise walks the whole element snapshot and acts only on `style` and `script`. The source's snapshot `soup(["style", "script"])` holds only those elements, and the same decompositions happen in the same order.
- Reducer.Soup.RemoveNoise and Reducer.Soup.RemoveEmpty pass over snapshot entries that an earlier `decompose` already took out of the tree. Calling `decompose` on such a detached entry does not change the live tree, and the model does nothing for it.
- Links.ShortenAttrs assumes attribute names are unique, as in the parser's attribute dictionary. On a list with duplicate names it rewrites every pair with that name.
- Reducer.SimplifyHtml does not form the unused intermediate strings of backend/app.py:59 and 65.
