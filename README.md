# Path metadata extractor

A Dafny model of the metadata extractor of the restoration archive. It reads
the object names of a storage bucket, such as
`2301BO23_Bologna_Rossi-Cassone-inv12/foto/2301BO23-P1.jpg`. From each name it
derives one catalogue record with eight fields:

- `Source_title`: the file name;
- `Path`: the full name;
- `Numero_commessa`: the project code;
- `Luogo`: the location;
- `Autore`: the author;
- `Titolo_opera`: the title of the work;
- `Anno_inizio_restauro`: the year the restoration started;
- `Tipo_file`: the document type.

The modules follow the structure of the program.

- `Wrappers` holds the `Option` type.
- `Text` models the Python string operations the program uses, over ASCII:
  - `split`, with and without a limit, and `re.split` on a character class;
  - `join`, `find` and `replace`;
  - `lower`, `upper` and `title`.
- `Patterns` has one hand-written matcher per regular expression of the
  program, plus `os.path.splitext`. The matchers for the folder, year and
  title patterns come with lemmas that tie them to a declarative reading of
  the pattern; the phase and analysis prefixes are short enough that their
  predicate is itself that reading.
  - The folder pattern is decided by a left-to-right scan. It is proved to
    agree with the existential definition over split points.
  - The title pattern `^(.*?)(?:-inv\d.*)?$` is modelled as a lazy group that
    tries each length in turn. `.` does not match a newline, and `$` also
    matches before a final newline. For a tail without newlines it is proved
    to cut before the first `-inv<digit>`.
  - Without newlines, the year pattern `(\d{4})$` is proved to be "the last
    four characters, when they are digits".
- `Tables` holds the fixed lookup tables:
  - the PDF code map;
  - the keyword table, kept as an ordered sequence because its first match
    wins;
  - the analysis map, where `"ir"` keeps its later entry;
  - the title blacklist, the image extensions and the phase labels.
- `Extractor` derives each field as a function. The imperative parts of the
  program are methods proved to compute those functions:
  - the base-folder scan with its early return;
  - the author loop with its `break` and its reassigned locals;
  - the loop that appends one record per name.

The named-entity recogniser is a parameter, `Recogniser`, with two
operations:

- whether a single token is recognised as a person;
- how many person entities a whole text holds.

The author rules are modelled as the code applies them. A token match is
overwritten by `anonimo` whenever the whole remainder holds more than one
person. The comment before that rule describes it as a fallback for when no
token matched, but the code runs it unconditionally.

## Model

| member | source | states |
|---|---|---|
| Text.Lower | estrazione_Path_Tag.py:132 | `lower()`: same length, each character mapped by its ASCII lower-case form |
| Text.Upper | estrazione_Path_Tag.py:128 | `upper()`: same length, each character mapped by its ASCII upper-case form |
| Text.TitleCase | estrazione_Path_Tag.py:142 | `title()`: a letter that starts a run of letters is upper case, a letter after a letter is lower case, other characters are kept |
| Text.ReplaceChar | estrazione_Path_Tag.py:108 | `replace` of one character: same length, exactly the occurrences of `a` become `b` |
| Text.SplitOn | estrazione_Path_Tag.py:79 | `split(sep, limit)`: at least one piece, no separator inside the pieces, at most `limit + 1` pieces, one piece (the string itself) exactly when there is no separator or the limit is 0 |
| Text.Join | estrazione_Path_Tag.py:85-87 | `sep.join(xs)`: the pieces with one separator between consecutive ones (its contents are fixed by `Text.JoinSplit`, `Text.JoinAppend` and `Text.JoinAt`) |
| Text.JoinSplit | estrazione_Path_Tag.py:84-87 | joining the pieces of a split with its separator gives back the string |
| Text.JoinSplitTwo | estrazione_Path_Tag.py:99 | the pieces of a split on two characters, joined with the first, give the string with the second replaced by the first |
| Text.SplitLength | estrazione_Path_Tag.py:84 | `folder.split('-')` has one more piece than the folder has dashes |
| Text.Find | estrazione_Path_Tag.py:118 | the first index where the pattern occurs, or none when it occurs nowhere |
| Text.Contains | estrazione_Path_Tag.py:133 | `k in low`: the pattern occurs somewhere, by `Text.Find` |
| Text.RemoveFirst | estrazione_Path_Tag.py:118 | `replace(pat, '', 1)`: the text before and after the first occurrence, joined; unchanged when there is none |
| Text.RemoveFirstRestores | estrazione_Path_Tag.py:118 | putting the removed occurrence back at its index restores the string |
| Patterns.MatchesFolderPattern | estrazione_Path_Tag.py:62 | the declarative reading of `^\d+[A-Za-z]*\d{2}(?:[-_].+){2,}`: split points for a head and two separator-led, newline-free pieces |
| Patterns.FolderScan | estrazione_Path_Tag.py:62 | the left-to-right scan for the same pattern, as `Patterns.FolderScanIff` proves |
| Patterns.FolderScanIff | estrazione_Path_Tag.py:62 | the scan decides `^\d+[A-Za-z]*\d{2}(?:[-_].+){2,}` exactly as its existential definition over split points |
| Patterns.FolderPatternShape | estrazione_Path_Tag.py:62 | a matching folder starts with a digit, is at least 7 long and has a separator after a head of at least 3 characters, then another separator |
| Patterns.FolderPatternYear | estrazione_Path_Tag.py:62 | a name of the form four digits, separator, piece, separator, character matches |
| Patterns.YearAtEnd | estrazione_Path_Tag.py:92-93 | `re.search(r'(\d{4})$')`: some place where four digits are followed by `$` and the group is those digits, or none when no place qualifies |
| Patterns.YearAtUnique | estrazione_Path_Tag.py:92 | at most one place in a string holds four digits followed by `$` |
| Patterns.YearOfCode | estrazione_Path_Tag.py:92-93 | for a code that does not end with a newline, the year exists exactly when its last four characters are digits, and is those four |
| Patterns.LazyGroup | estrazione_Path_Tag.py:120 | the lazy `(.*?)` takes the shortest newline-free stretch after which the rest of the pattern matches; it fails only when a newline is reached first |
| Patterns.LazyGroupReaches | estrazione_Path_Tag.py:120 | the lazy group succeeds no later than any reachable length where the rest matches |
| Patterns.StripInventory | estrazione_Path_Tag.py:120-121 | `re.match(r'^(.*?)(?:-inv\d.*)?$')`: the group is the shortest newline-free prefix where the rest of the pattern matches; it always exists for a newline-free tail |
| Patterns.StripHasNoInventory | estrazione_Path_Tag.py:120-121 | the group never holds an inventory marker `-inv<digit>` |
| Patterns.PlainStrip | estrazione_Path_Tag.py:120 | reference: the prefix before the first `-inv<digit>`, or the whole string |
| Patterns.StrippedHasNoInventory | estrazione_Path_Tag.py:120 | the reference prefix holds no inventory marker |
| Patterns.StripPlain | estrazione_Path_Tag.py:120-121 | on a newline-free tail the regular expression gives exactly the reference prefix |
| Patterns.StripWithoutInventory | estrazione_Path_Tag.py:120-121 | a newline-free tail with no marker is kept whole |
| Patterns.StripTitleAndInventory | estrazione_Path_Tag.py:120-121 | `title-inv<digit>rest`, with a marker-free, newline-free title and rest, gives `title` |
| Patterns.StripTrailingNewline | estrazione_Path_Tag.py:120-121 | a final newline is matched by `$` and left out of the group |
| Patterns.StripFailsAtNewline | estrazione_Path_Tag.py:120-121 | a newline before the end with no marker before it makes the match fail |
| Patterns.PhaseOf | estrazione_Path_Tag.py:136 | `^{commessa}-([PDF])\d`: a found phase means a non-empty code, then `-`, the letter and a digit |
| Patterns.PhaseOfShape | estrazione_Path_Tag.py:136-138 | every name of that shape yields its phase letter |
| Patterns.AnalysisPrefix | estrazione_Path_Tag.py:140 | `re.match(r'^M\d+')`: an `M` followed by a digit at the start of the name |
| Patterns.Extension | estrazione_Path_Tag.py:124 | `splitext(...)[1].lower().lstrip('.')`: dot-free, no upper-case letter, empty for a name without a dot |
| Patterns.ExtensionOfSuffix | estrazione_Path_Tag.py:124 | a stem that is not only dots, a dot and a dot-free suffix give that suffix lower-cased |
| Patterns.ExtensionIsSuffix | estrazione_Path_Tag.py:124 | a non-empty extension is the lower-cased text after the last dot, which follows a stem that is not only dots |
| Extractor.Segments | estrazione_Path_Tag.py:73 | `full_path.split('/')`: at least one segment, none holds `/`, and joined with `/` they give the name back |
| Extractor.FileName | estrazione_Path_Tag.py:74 | `parts[-1]`: a `/`-free suffix of the name, preceded by `/` unless it is the whole name |
| Extractor.FolderBase | estrazione_Path_Tag.py:64-68 | the base folder is always one of the segments |
| Extractor.FolderBaseFirst | estrazione_Path_Tag.py:65-67 | the first segment other than the last that matches the folder pattern is the base folder |
| Extractor.FolderBaseDefault | estrazione_Path_Tag.py:68 | when no segment other than the last matches, the base folder is the first segment |
| Extractor.DetectFolderBase | estrazione_Path_Tag.py:64-68 | the loop with early return computes the base folder |
| Extractor.Decompose | estrazione_Path_Tag.py:78-87 | the fields are filled in order: a location only with a code, a remainder only with a location; their contents are stated by the two lemmas below |
| Extractor.DecomposeUnderscore | estrazione_Path_Tag.py:78-82 | with `_`: code and location are always present and hold no `_`, and the folder is code, `_`, location and either `_` and remainder or nothing with an empty remainder |
| Extractor.DecomposeDash | estrazione_Path_Tag.py:83-87 | without `_`, by the number of dashes: under 2 gives no code; 2 gives the code alone; 3 adds a dash-free location; 4 or more add the remainder; the folder is their dash-join and the code holds exactly two dashes |
| Extractor.Anno | estrazione_Path_Tag.py:90-93 | a year exists only for a present code and is four digits followed by `$` in it; none exactly when the code is absent or has no such digits |
| Extractor.Tokens | estrazione_Path_Tag.py:99 | `re.split('[-_]')`: at least one token, none holds `-` or `_`, a single token exactly when the remainder has neither, and the tokens joined with `-` are the remainder with every `_` turned into `-` |
| Extractor.Blanked | estrazione_Path_Tag.py:108 | the text given to the recogniser: every `-` and `_` becomes a blank and every other character is kept |
| Extractor.FirstPersonToken | estrazione_Path_Tag.py:101-106 | the first token that is non-empty, not blacklisted and recognised, with no earlier one accepted |
| Extractor.Author | estrazione_Path_Tag.py:96-114 | an author only for a non-empty remainder, and any author other than `anonimo` is a non-empty, non-blacklisted, recognised token; the rules in order are stated by the three lemmas below |
| Extractor.AuthorRules | estrazione_Path_Tag.py:96-114 | empty remainder: no author; more than one person: `anonimo`; several tokens, none accepted: `anonimo`; any other author is the first accepted token, never empty or blacklisted |
| Extractor.AuthorNone | estrazione_Path_Tag.py:96-114 | no author exactly when the remainder is empty, or is one rejected word without `-`/`_` and the text holds at most one person |
| Extractor.AuthorIsFirstToken | estrazione_Path_Tag.py:101-111 | a token match stays the author exactly when the whole text holds at most one person, and is replaced by `anonimo` otherwise |
| Extractor.ResolveAuthor | estrazione_Path_Tag.py:96-121 | the loop with `break` and the reassigned `autore`/`titolo` compute the author and title functions |
| Extractor.Tail | estrazione_Path_Tag.py:116-118 | a real author's first `author-` is removed from the remainder; with no author or `anonimo` the remainder is kept |
| Extractor.Title | estrazione_Path_Tag.py:116-121 | a title is non-empty and newline-free; `Extractor.TitleRules` states the rest |
| Extractor.TitleRules | estrazione_Path_Tag.py:116-121 | empty remainder: no title; a title is a non-empty newline-free prefix of the tail where the pattern completes and holds no marker; on a newline-free tail there is no title exactly when the tail is empty or starts with a marker |
| Extractor.PdfCode | estrazione_Path_Tag.py:127-128 | the upper-cased second `_`-token: empty for a name without `_`, and holds no `_` and no lower-case letter |
| Extractor.KeywordFrom | estrazione_Path_Tag.py:133 | the keyword search stops at the first table entry, in order, that occurs in the name, with no earlier entry occurring |
| Extractor.PdfType | estrazione_Path_Tag.py:126-134 | a PDF type is always assigned |
| Extractor.PdfTypeRules | estrazione_Path_Tag.py:127-134 | a known upper-cased second `_`-token wins; otherwise the first keyword in table order found in the lower-cased name; otherwise `pdf` |
| Extractor.AnalysisSub | estrazione_Path_Tag.py:141 | the analysis token: empty without `_`, and holds no `_` and no upper-case letter |
| Extractor.AnalysisSubIsLuogo | estrazione_Path_Tag.py:141 | `folder.split('_')[1].lower()` is the lower-cased location of the decomposition |
| Extractor.AnalysisLabel | estrazione_Path_Tag.py:142 | the analysis label is the prefix plus the table entry, or plus the title-cased token when it has none |
| Extractor.ImageType | estrazione_Path_Tag.py:135-144 | a photograph's type is never the initial `Unknown` |
| Extractor.ImageTypeRules | estrazione_Path_Tag.py:136-144 | phase label first, then the analysis label for an `M<digit>` name, otherwise the extension |
| Extractor.FileType | estrazione_Path_Tag.py:123-147 | the type is never `Unknown`; an extension that is neither `pdf` nor an image passes through verbatim |
| Extractor.RecordOf | estrazione_Path_Tag.py:72-158 | a record exists for every name: `Path` is the name and `Source_title` a `/`-free suffix of it, and the type is assigned |
| Extractor.ParsePath | estrazione_Path_Tag.py:72-158 | the loop body computes the record of one name |
| Extractor.Table | estrazione_Path_Tag.py:71-158 | one record per name |
| Extractor.TableRow | estrazione_Path_Tag.py:149-158 | row `i` is the record of name `i`, so the order is the input order |
| Extractor.Extract | estrazione_Path_Tag.py:71-158 | the loop over the listing appends exactly the table of the names |

## Left out

- The bucket listing and the cloud configuration (estrazione_Path_Tag.py:1-32) are network calls. The list of names is a parameter of `Extract`.
- The spaCy model and the recogniser it implements (estrazione_Path_Tag.py:5, 13, 103, 108) are a foreign machine-learning component. They stand as the `Recogniser` parameter, about which nothing is assumed.
- The DataFrame and Excel export (estrazione_Path_Tag.py:160-163) is file output.
- `chatbot/chatbot_chainlit.py` is not part of this model. It has no decision logic of its own: it wires model clients, a secret store, a database and callbacks.
- `estrazione_path.py` is not part of this model. It only lists the bucket and writes a spreadsheet; its file-name rule is the one `Extractor.FileName` states.
- Unicode semantics are not modelled. `\d`, `[A-Za-z]`, `lower`, `upper` and `title` are modelled over ASCII. Python also treats non-ASCII digits and letters, and multi-character case mappings, which this model does not capture.
- `os.path.splitext` is modelled with `/` as the only separator (POSIX). The configuration path at estrazione_Path_Tag.py:17 suggests the script runs on Windows, where `splitext` also treats `\` as a separator. A `\` in a file name is not treated as a separator here, so a dot before it would still start the extension.
- The regular-expression engine itself is not modelled. Each of the five patterns has its own matcher.
- Extractor.RecordOf: its contract states only the field facts that hold for every name. The content of each other field is stated by the lemmas about the function that computes it.
