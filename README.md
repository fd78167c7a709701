# Latin-to-Cyrillic and radical highlighting, modelled in Dafny

Two browser userscripts rewrite the text of a page.

`latin_to_cyrillic.js` replaces the 52 ASCII letters of chat messages with
Cyrillic letters. Each rewritten text node keeps its original text in a
cache, so switching back restores that text. Elements with class
`CodeBlock` are never entered. An element whose text contains a forbidden
string (`密码`, `@`, `#`, `/`) is not transformed. A `data-translated`
marker stops an element from being transformed twice, and a global flag,
flipped by a button, switches the transform on and off.

`radical_highlighter.js` finds every text node under the body. It wraps
each CJK ideograph that is one of the listed Kangxi radicals in a
highlight `<span>`, and puts the result in place of the text node.

The project has four modules:

- `Cyrillic` (`cyrillic.dfy`) holds the pure parts of the first script:
  - the letter table and the string transform;
  - the substring test behind the denylist.
- `CyrillicDom` (`cyrillic_dom.dfy`) holds its stateful parts:
  - Text nodes and elements are objects. A text node owns its text and its
    cache.
  - An element owns its marker. Its class list and child list are
    constants, because the script never changes them.
  - The walk, the marker logic and the toggle are methods. Each is proved
    against a function on one text node's state: `Forward`, `Reverse` or
    `Visit`.
  - The round trip, idempotence and re-enable lemmas are stated about those
    functions.
- `Radicals` (`radicals.dfy`) holds the radical list and the substitution,
  which returns both the new string and the `hasRadical` flag.
- `RadicalDom` (`radical_dom.dfy`) holds the highlighter's tree side:
  - The page is a value tree held in the field of a `Page` object.
  - A node is named by its path of child indices. Replacing a text node
    shifts none of its siblings, so paths collected before the pass still
    name the same nodes while it runs.
  - `Page.HighlightAll` is proved to equal a one-pass rewrite
    (`HighlightTree`). That rewrite visits every text node that existed at
    the start once, and never enters a span it creates.

The Cyrillic letters are the ones the table in `latin_to_cyrillic.js` is
evidently meant to hold. The file's bytes show UTF-8 read as Windows-1252.
Decoding them gives `а б ц д е ф г х и й к л м н о п к р с т у в в кс й з`
for `a`–`z`, and the same letters in capitals for `A`–`Z`. Decoding the
first forbidden string the same way gives `密码`. Five of these values do
not decode cleanly from the file as written, because the bytes 0x81, 0x90
and 0x9D have no Windows-1252 character and are missing from it: `s`
(latin_to_cyrillic.js:78) and `x` (line 79) lack the second byte of `с`,
`A` and `N` (lines 81 and 83) are the same one-character string, and the
first forbidden string (line 22) ends after a broken last character. The
model completes these five as `с`, `кс`, `А`, `Н` and `码`, inferred from
the letters the rest of the table and the denylist intend; taken
literally, `A` and `N` would be one more pair sharing a target.

The code and its own comment disagree about the radical list. The comment
says 214 radicals, but the string holds 211 characters; the model uses
the 211 in the string.

## Model

| member | source | states |
|---|---|---|
| Cyrillic.Table | latin_to_cyrillic.js:74-87 | The table has an entry for exactly the 52 ASCII letters. Every entry is non-empty and contains no ASCII letter. |
| Cyrillic.TranslitChar | latin_to_cyrillic.js:88 | `map[c] \|\| c`: an ASCII letter becomes its table entry and any other character stays as it is. The result never holds an ASCII letter. |
| Cyrillic.ToCyrillic | latin_to_cyrillic.js:73-89 | The output contains no ASCII letter and is at least as long as the input. |
| Cyrillic.ToCyrillicCons | latin_to_cyrillic.js:88 | The transform works one character at a time, from the front of the string. |
| Cyrillic.ToCyrillicAppend | latin_to_cyrillic.js:88 | The transform distributes over concatenation: f(a + b) = f(a) + f(b). |
| Cyrillic.ToCyrillicFixesLetterFree | latin_to_cyrillic.js:74-88 | Text without ASCII letters passes through unchanged. |
| Cyrillic.ToCyrillicIdempotent | latin_to_cyrillic.js:74-88 | Applying the transform to its own output changes nothing: f(f(t)) = f(t). |
| Cyrillic.SharedTargets | latin_to_cyrillic.js:76-85 | `k`/`q`, `v`/`w`, `j`/`y` and their capitals are distinct letters that map to the same target. |
| Cyrillic.ToCyrillicNotInvertible | latin_to_cyrillic.js:76-88 | No function inverts the transform, so restoring has to use the cache. |
| Cyrillic.Includes | latin_to_cyrillic.js:26 | `text.includes(pat)` holds iff `pat` occurs in `text` at some index. |
| Cyrillic.AnyIncluded | latin_to_cyrillic.js:26 | `some(s => text.includes(s))` holds iff at least one pattern in the list occurs in the text. |
| Cyrillic.IncludesChar | latin_to_cyrillic.js:26 | For a one-character pattern, `includes` is the same as membership. |
| Cyrillic.ShouldSkip | latin_to_cyrillic.js:22-27 | An element is skipped iff its text contains `@`, `#`, `/` or `密码`. |
| Cyrillic.IncludesInfix | latin_to_cyrillic.js:26 | A pattern found in a piece of text is still found once more text is added on either side. |
| Cyrillic.ShouldSkipInfix | latin_to_cyrillic.js:24-27 | If part of an element's text is enough to skip it, the whole text is too. |
| Cyrillic.ShapeToCyrillic | latin_to_cyrillic.js:74-88 | The transform keeps a text's shape: each run of letters stays one run of letters, and every other character stays in place. |
| Cyrillic.SkipShape | latin_to_cyrillic.js:22-27 | Two texts of the same shape get the same skip verdict, because no forbidden string contains a letter. |
| Cyrillic.SkipToCyrillic | latin_to_cyrillic.js:22-27 | Translating a text never changes its skip verdict. |
| CyrillicDom.ForwardShowsTranslation | latin_to_cyrillic.js:37-41 | A forward visit keeps the node's Latin text and shows its translation. The text is cached only when no truthy cache exists. |
| CyrillicDom.ReverseShowsLatin | latin_to_cyrillic.js:42-46 | A reverse visit shows the Latin text again. A node without a truthy cache is left exactly as it is. |
| CyrillicDom.RoundTrip | latin_to_cyrillic.js:37-46 | On a node that shows Latin text, a forward visit followed by a reverse visit gives back that text. |
| CyrillicDom.ForwardIdempotent | latin_to_cyrillic.js:37-41 | A second forward visit changes neither the text nor the cache. |
| CyrillicDom.ReenableReproduces | latin_to_cyrillic.js:37-46 | Forward, then reverse, then forward again ends in the same state as one forward visit. |
| CyrillicDom.Element.SkipFromChild | latin_to_cyrillic.js:24-27 | A forbidden string anywhere in a descendant element, including one with class `CodeBlock`, makes the whole element skipped. |
| CyrillicDom.Element.TranslateTextNodes | latin_to_cyrillic.js:32-51 | Every text node reachable without entering a `CodeBlock` element gets exactly one forward or reverse visit. Every other text node is unchanged. A `CodeBlock` root changes nothing. |
| CyrillicDom.VisitChild | latin_to_cyrillic.js:35-50 | One child of the walk: a text node is visited, and an element child is walked recursively. |
| CyrillicDom.RestoreLatin | latin_to_cyrillic.js:53-56 | Every visible text node gets a reverse visit, and the marker is removed. |
| CyrillicDom.Translator.constructor | latin_to_cyrillic.js:6 | The flag is off only when the stored value is `"false"`. |
| CyrillicDom.Translator.ProcessMessageContent | latin_to_cyrillic.js:61-68 | The call does nothing when the flag is off, the element is already marked, or the element is skipped; a skipped element stays unmarked. Otherwise every visible text node gets a forward visit and the element is marked. Afterwards a second call would do nothing. |
| CyrillicDom.SkipUnchanged | latin_to_cyrillic.js:61-68 | After some text nodes below an element have been translated, its skip verdict is still the one it had before. |
| CyrillicDom.Translator.ProcessAll | latin_to_cyrillic.js:166-168 | Each candidate ends marked iff it was marked or its text was not skipped at the start. A text node ends in the state of one forward visit iff a walk from a candidate that was unmarked and not skipped at the start reaches it. Every other text node is unchanged. Overlapping candidates (a nested pending candidate forwards its text nodes twice) and their order make no difference, because a second forward visit changes nothing. |
| CyrillicDom.RestoreAll | latin_to_cyrillic.js:161-163 | Every marked element loses its marker, and every text node visible from one of them gets a reverse visit. |
| CyrillicDom.Translator.Toggle | latin_to_cyrillic.js:155-170 | The call flips the flag. Switching off restores every marked element and unmarks it. Switching on marks exactly the candidates that were marked or not skipped, and translates exactly the text nodes that the newly marked ones reach. Nothing outside the queried elements changes. |
| Radicals.RadicalCount | radical_highlighter.js:12-16 | The list holds 211 characters, and `龠` is one of them. |
| Radicals.Substitute | radical_highlighter.js:25-32 | `hasRadical` is true iff the text contains a radical in the block. When it is false, the output equals the input. |
| RadicalDom.ParseWrapChar | radical_highlighter.js:26-35 | Once parsed, a radical in U+4E00–U+9FFF becomes one highlight element holding that character. Any other character joins the text around it. |
| RadicalDom.ParseWrapCharText | radical_highlighter.js:26-35 | One substituted character adds itself to the parsed text. It adds itself to the highlighted text iff it is a radical in the block. |
| RadicalDom.ParseSubstitute | radical_highlighter.js:26-35 | Once the output is parsed, removing the wrappers gives back the input characters in order. The highlight elements hold exactly the wrapped radicals. |
| RadicalDom.HighlightNode | radical_highlighter.js:19-38 | A node changes iff it is a text node with a parent, has no `input`/`textarea`/`script`/`style` ancestor, and contains a radical. Non-text nodes, nodes without a parent, excluded nodes, empty text and radical-free text are left alone. A changed node becomes a plain `span`. |
| RadicalDom.HighlightNodeKeepsText | radical_highlighter.js:33-37 | A replaced text node keeps its text content, and its highlight elements hold exactly its radicals. |
| RadicalDom.FoldDescendants | radical_highlighter.js:42-46 | Handing the snapshot of text-node paths to `highlightNode` one at a time gives the one-pass rewrite. Spans created on the way are never visited. |
| RadicalDom.VisitKeepsText | radical_highlighter.js:19-46 | The pass changes no text, only adds wrappers, whenever every text node it replaces is read literally by the parser; script, style and radical-free text may hold anything. |
| RadicalDom.HighlightTreeKeepsText | radical_highlighter.js:41-46 | The page's text content is the same after `highlightAll` as before, whenever every text node the pass replaces is read literally by the parser; text it leaves alone may hold anything. |
| RadicalDom.VisitNoRadical | radical_highlighter.js:33-37 | A subtree without radicals is left unchanged. |
| RadicalDom.HighlightTreeNoRadical | radical_highlighter.js:41-46 | A page without radicals comes out of `highlightAll` unchanged. |
| RadicalDom.RewrapMark | radical_highlighter.js:19-37 | A later pass that reaches a highlight element, under ancestors none of which is excluded, wraps its radical again inside a new plain span. |
| RadicalDom.SecondPassRewraps | radical_highlighter.js:22 | On a concrete page, a second `highlightAll` gives a different page from the first, because no guard skips radicals that are already highlighted. |
| RadicalDom.Page.HighlightAll | radical_highlighter.js:41-48 | The whole pass over the page: the new body is the one-pass rewrite of the old one. |

## Left out

- Timers and the debounce helper (`setTimeout`, `clearTimeout`) are outside the model.
- The MutationObserver wiring and the `DOMContentLoaded`/`load` listeners are outside the model. So is the `observer` that radical_highlighter.js uses at line 215: its definition is commented out, so the name is undefined there.
- `localStorage` is outside the model:
  - The stored flag is the constructor parameter of `Translator`.
  - Writing the flag back on toggle is not modelled.
  - The highlighter's pin position is not modelled.
- Buttons, their labels and styling, dragging, pinning, closing, fullscreen handling and the Alt+L shortcut are user interface and are not modelled.
- The highlight toggle is not modelled: it only restyles existing spans.
- Console logging is not modelled.
- The document queries are not modelled as such:
  - `querySelectorAll` for `[data-translated="true"]` and for `.message-content, .message` is replaced by sequences the caller passes in (`marked`, `candidates`).
  - The TreeWalker becomes `Descendants`, which lists the text nodes in document order.
- `innerHTML` parsing is simplified. `Parse` recognises the highlight wrapper and reads every other character as itself. The source splices the text into HTML without escaping it, and a browser treats four characters specially: `<` starts a tag, `&` starts a character reference, a carriage return becomes a line feed, and NUL is dropped. Only the text nodes that `highlightNode` replaces go through the parser, so the text-preservation lemmas require only of those that they hold none of the four: `ParseSubstitute` and `HighlightNodeKeepsText` of their one text (`LiteralText`), `VisitKeepsText` and `HighlightTreeKeepsText` of every replaced node in the tree (`SafeAt`). Script, style, form-field and radical-free text is unrestricted.
- The span's `style` attribute is not modelled; elements carry only a tag, a class set and children.
- Node kinds other than text and element (comments, processing instructions) are not modelled in either tree. The walk in latin_to_cyrillic.js skips them.
- JavaScript strings are UTF-16. The model works on Unicode scalar values. This makes no difference for the characters involved, which all lie in the Basic Multilingual Plane.
- `restoreLatin` passes `null` as the transform. `RestoreLatin` passes the identity function instead, which the reverse walk never calls.
- Radicals.RadicalCount: does not prove that every listed radical lies in U+4E00–U+9FFF. The wrapping predicate still requires both conditions, exactly as the source does.
