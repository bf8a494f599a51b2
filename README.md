# HotNewsApp core in Dafny

HotNewsApp is a Streamlit page with two jobs. It collects the newest
headlines of five lifestyle sites from their RSS feeds into one report. It
also draws a shareable picture: a caption on a translucent band over a
background. This project models the computational core of both jobs in
`app.py` and proves properties of it.

- **Canvas** (`Canvas.dfy`) covers the picture's geometry:
  - the canvas size picked by the ratio selector (750×1000 for "4:3", else 1000×1000);
  - the centre crop of an uploaded background;
  - the fallback to the solid canvas;
  - the translucent band from `int(H*0.75)` to `int(H*0.9)`;
  - the rows at which caption lines are anchored, at a line height of 1.3 × 40 = 52.
- **Wrap** (`Wrap.dfy`) covers the caption text:
  - `split('\n')`;
  - the character-count wrap loop (24 characters per line on the narrow canvas, 36 on the wide one);
  - `strip()` over Python's whitespace set;
  - dropping the blank lines.
- **Visual** (`Visual.dfy`) covers `generate_visual_content` as a method from title, ratio and upload to the numbers the renderer draws with.
- **Stamps** (`Stamps.dfy`) covers feed times, their `"%Y-%m-%d %H:%M"` text and Python's order on strings. It relates the order of the texts to the order of the times.
- **Feeds** (`Feeds.dfy`) covers:
  - `parse_entries`, with its defaults: title "(無標題)", link "", and the time taken from published, else updated, else now;
  - `fetch_top5_each_site`: the first five records of every non-empty feed, tagged with the site, then a stable sort on the time text, newest first.

Loops in the source are methods with loop invariants, proved against specification functions. The exception is the drawing loop at app.py:195-200: the model gives the row of each line in closed form, by `Canvas.LineTops`. The rest is functions and lemmas:

| loop method | specification function |
|---|---|
| `WrapParagraphs`, `WrapLine` | `Wrapped`, `Chunks` |
| `ParseEntries` | `ParseAll` |
| `SetSource` | `Tag` |
| `FetchTop5EachSite` | `Collected` and `SortDesc` |

Some facts follow from the proofs:

- No caption character is lost or reordered by the wrap.
- Each piece of a paragraph is exactly the limit long, except the last.
- Each drawn line has no whitespace at either end and is at most the limit long.
- The text block is centred on the band.
- On the 1000-row canvases, the band runs from row 750 to row 900, both ends filled. The 52-row lines fit inside it only when there are at most two of them. A caption of three or more lines spills past the band (`Canvas.BlockFitsBand`).
- The sorted report keeps exactly min(5, n) records of each listed site.

## Model

| member | source | states |
|---|---|---|
| Canvas.Trunc | app.py:125 | `int()` of a float truncates toward zero: within one of the value, on the side of zero |
| Canvas.CanvasSize | app.py:84-91 | "4:3" gives the 750×1000 portrait canvas, in the exact 3:4 proportion; any other ratio gives 1000×1000 |
| Canvas.CharLimit | app.py:159 | 24 characters per line exactly when the canvas is narrower than 1000, 36 otherwise |
| Canvas.CharLimitByRatio | app.py:159 | the line limit is 24 for the "4:3" ratio and 36 for every other ratio |
| Canvas.CenterCrop | app.py:99-125 | the box is exactly W×H and lies inside the resized image; the overflow is split equally, the far side getting the odd pixel. A wider image is scaled to height H and cut sideways only, its width the floor of the aspect-preserving width; a taller one is scaled to width W and cut vertically only |
| Canvas.SideCut | app.py:109-125 | the cut along the long side, `int((len-keep)/2)` to `int((len-keep)/2+keep)`, keeps exactly `keep` pixels, with equal margins up to one pixel |
| Canvas.Wider | app.py:100-102 | the branch test of the crop: the image is relatively wider than the canvas, by cross-multiplication |
| Canvas.WiderIsAspect | app.py:100-102 | for positive heights, the cross-multiplied test holds exactly when `img_width / img_height > WIDTH / HEIGHT` |
| Canvas.BaseLayer | app.py:94-131 | the base is a crop exactly when a decodable image with two positive sides was uploaded, and then it is the `CenterCrop` of that image for the canvas; otherwise it is the solid canvas of the canvas size. This includes no upload, undecodable bytes, and a zero side, which divides by zero |
| Canvas.TallBox | app.py:119-125 | the tall branch's box from whatever resized height the float product gave: full width; exactly H rows whenever that height is at least H |
| Canvas.ShortBox | app.py:116-125 | when the resized height comes out as H - 1, `top` is -0.5 and the box covers rows 0 to H - 1, one row short of the canvas |
| Canvas.BaseSize | app.py:125-131 | the size of the image the base layer hands on: the crop box's width and height, or the solid canvas's size |
| Canvas.BaseLayerHasCanvasSize | app.py:94-131 | whatever was uploaded, the base layer has the canvas size |
| Canvas.OverlayBand | app.py:135-139 | the band lies within the canvas, start not after end; on a 1000-row canvas it covers rows 750 to 900 |
| Canvas.BandCenter | app.py:189 | the centre row is equally far from the band's start and end |
| Canvas.TextTop | app.py:185-192 | the first top plus half the block height is the band's centre |
| Canvas.LineTops | app.py:195-196 | one top per line; line i is anchored i line heights below the first |
| Canvas.LineTopsCentered | app.py:185-196 | consecutive lines are one line height apart, and the block from the first top to the last bottom is centred on the band |
| Canvas.BlockFitsBand | app.py:134-192 | the block lies inside the band iff its height is at most the band's; on the 750..900 band, iff there are at most two lines |
| Wrap.Split | app.py:163 | `split('\n')` gives at least one paragraph, none containing a line break |
| Wrap.JoinSplit | app.py:163 | joining the paragraphs with '\n' restores the text |
| Wrap.SplitJoin | app.py:163 | splitting the join of break-free paragraphs gives them back |
| Wrap.NoBreakSplit | app.py:163 | a text without a line break is one paragraph |
| Wrap.SplitAtBreak | app.py:163 | the paragraphs of a + "\n" + b are those of a followed by those of b |
| Wrap.Chunks | app.py:166-179 | the pieces of one paragraph as the inner loop emits them: runs of `limit` characters, then a non-empty rest; its properties are the `Chunks*` lemmas below |
| Wrap.ChunksFlatten | app.py:166-179 | the pieces of a paragraph concatenate back to it |
| Wrap.ChunksBounds | app.py:166-179 | the pieces are greedy: all but the last exactly `limit` long, every one 1..limit long, none for an empty paragraph, and no line break in any piece |
| Wrap.ChunksSound | app.py:166-179 | both of the above at once |
| Wrap.ChunksUnique | app.py:166-179 | any greedy list of pieces that concatenates to the paragraph is the one the loop produces |
| Wrap.Wrapped | app.py:162-179 | the pieces of all paragraphs, paragraph by paragraph; its properties are the `Wrapped*` lemmas below |
| Wrap.WrappedAppend | app.py:162-179 | wrapping two runs of paragraphs gives the pieces of the first followed by those of the second |
| Wrap.WrappedFlatten | app.py:162-179 | the pieces of all paragraphs concatenate to the paragraphs concatenated: no character lost, added or moved |
| Wrap.WrappedBounds | app.py:162-179 | for break-free paragraphs, every piece is 1..limit long and has no line break |
| Wrap.WrapParagraphs | app.py:162-179 | the nested loop's `final_lines` equals `Wrapped` of the paragraphs |
| Wrap.WrapLine | app.py:166-179 | one paragraph's pass appends exactly its greedy pieces to the lines so far |
| Wrap.IsSpace | app.py:182 | the characters `str.strip()` removes, the code points Python's `str.isspace` accepts |
| Wrap.Strip | app.py:182 | `strip()` as lstrip then rstrip; characterised by `Wrap.StripSound` |
| Wrap.StripLeft | app.py:182 | the leading half of `strip()`: whitespace is dropped from the front until a non-space or the end; characterised by `Wrap.StripLeftSound` |
| Wrap.StripRight | app.py:182 | the trailing half of `strip()`: whitespace is dropped from the back until a non-space or the start; characterised by `Wrap.StripRightSound` |
| Wrap.StripLeftSound | app.py:182 | lstrip removes exactly the leading whitespace and leaves a suffix that starts with a non-space |
| Wrap.StripRightSound | app.py:182 | rstrip removes exactly the trailing whitespace and leaves a prefix that ends with a non-space |
| Wrap.StripSound | app.py:182 | strip gives the infix of s after its leading whitespace and before its trailing whitespace. Everything removed is whitespace, no whitespace is left at either end, and the result is empty iff s is all whitespace |
| Wrap.StripAll | app.py:182 | one text per line, text i being line i stripped |
| Wrap.NonEmpty | app.py:182 | the `if line.strip()` filter: the non-empty texts, in order; pinned down with `Wrap.CleanedOne` and `Wrap.NonEmptySound` |
| Wrap.NonEmptySound | app.py:182 | the filter keeps only texts of its input and never an empty one |
| Wrap.CleanedSound | app.py:182 | every drawn line is non-empty, at most `limit` long and has no whitespace at either end; there are no more drawn lines than pieces |
| Wrap.Cleaned | app.py:182 | the drawn lines, `[line.strip() for line in final_lines if line.strip()]`; pinned down by `Wrap.CleanedOne` and `Wrap.CleanedAppend` |
| Wrap.CleanedAppend | app.py:182 | stripping and filtering works line by line and keeps the order |
| Wrap.CleanedOne | app.py:182 | one line is drawn as its stripped form when that is non-empty, and dropped otherwise |
| Visual.Displayed | app.py:152 | the displayed caption is the title when that is not empty, and the placeholder "請輸入文章標題以跟風熱點..." when it is |
| Visual.FinalLines | app.py:152-179 | the caption's pieces keep every character of its paragraphs, in order, and each piece is 1..limit long without a line break |
| Visual.GenerateVisualContent | app.py:84-200 | canvas from the ratio; base layer of canvas size; band 750..900; limit 24 or 36; pieces equal `Wrapped(Split(title or placeholder))` and keep every character; drawn lines are the non-blank stripped pieces, each displayable; line i at row 825 - 26n + 52i for n lines |
| Visual.CaptionAtBreak | app.py:161-182 | a line break in the caption separates the wrapping and the trimming: the result for a + "\n" + b is that of a followed by that of b |
| Visual.ShortCaptionOneLine | app.py:152-182 | a break-free, non-blank caption of at most `limit` characters is drawn as the single line `title.strip()` |
| Visual.EmptyCaptionPlaceholder | app.py:152-182 | an empty caption is drawn as the one line of the 15-character placeholder under either line limit |
| Stamps.DaysInMonth | app.py:27-29 | the contract states that every month has 28..31 days and that 29 occurs exactly for February of a leap year; the body is the Gregorian month table (30 days for April, June, September, November, 28 for a common February, 31 otherwise) |
| Stamps.Valid | app.py:27-29 | the fields `datetime(*t[:6])` accepts with a four-digit year: month 1..12, a day its month has, hour 0..23, minute and second 0..59; `Feeds.EntryValid` asks it only of the tuple the source converts |
| Stamps.Digits | app.py:36 | a zero-padded field has exactly the requested width |
| Stamps.DigitsAreDigits | app.py:36 | every character of a padded field is a decimal digit |
| Stamps.DigitsOrder | app.py:36 | padded fields of one width compare as strings exactly as their numbers compare, and are equal exactly when the numbers are |
| Stamps.Format | app.py:36 | the `"%Y-%m-%d %H:%M"` text is 16 characters long |
| Stamps.FormatShape | app.py:36 | the text has '-', '-', ' ', ':' at places 4, 7, 10, 13 and decimal digits everywhere else |
| Stamps.FormatOrder | app.py:36-56 | one time text is smaller than another iff its time is earlier to the minute; two texts are equal iff the times agree to the minute |
| Stamps.Less | app.py:56 | Python's `<` on `str`, by which the sort compares time keys: lexicographic by code point, a proper prefix being smaller; its order properties are the `Less*` lemmas |
| Stamps.LessIrreflexive | app.py:56 | no string is smaller than itself |
| Stamps.LessTransitive | app.py:56 | the string order is transitive |
| Stamps.LessTotal | app.py:56 | of two different strings exactly one is smaller |
| Feeds.EntryTime | app.py:25-31 | the time is the publication time if present, else the update time if present, else now |
| Feeds.ParseAll | app.py:22-39 | one record per entry, in order, record i being entry i's |
| Feeds.ParseEntry | app.py:24-38 | the record of one entry: its title or "(無標題)", its link or "", the formatted `EntryTime`, an empty source |
| Feeds.ParseEntries | app.py:22-39 | the loop yields one record per entry, in order: its title or "(無標題)", its link or "", the formatted time from published, updated or now, and an empty source |
| Feeds.Tag | app.py:50-51 | the records are kept in order with only their source replaced by the site |
| Feeds.SetSource | app.py:50-51 | the tagging loop yields exactly `Tag` of the kept records |
| Feeds.Contribution | app.py:45-51 | an empty feed adds nothing; otherwise its first min(5, n) records, record i being entry i's record with the site as source |
| Feeds.Collected | app.py:43-52 | the contributions of the feeds, feed by feed in list order, before sorting |
| Feeds.InsertDesc | app.py:56 | one insertion step of the sort: the record goes after every record whose time is not earlier; see the `InsertDesc*` lemmas |
| Feeds.SortDesc | app.py:56 | `sort(key=time, reverse=True)` as repeated insertion; see the `SortDesc*` lemmas |
| Feeds.InsertDescPerm | app.py:56 | inserting adds exactly the one record |
| Feeds.InsertDescSorted | app.py:56 | inserting into a newest-first list keeps it newest first |
| Feeds.InsertDescStable | app.py:56 | inserting puts the new record after those with the same time text |
| Feeds.SortDescSorted | app.py:56 | the sort's output is newest first |
| Feeds.SortDescPerm | app.py:56 | the sort's output is a permutation of its input |
| Feeds.SortDescStable | app.py:56 | records with equal time text keep their input order |
| Feeds.SortDescSound | app.py:56 | newest first, a permutation, and stable, together |
| Feeds.FetchTop5EachSite | app.py:41-57 | the report is the stable newest-first sort of the feeds' contributions: for each non-empty feed in order, its first five records tagged with its site. It is newest first and holds exactly those records |
| Feeds.ContributionSite | app.py:43-52 | a feed's contribution is all from its own site and from no other |
| Feeds.CollectedSite | app.py:43-52 | before sorting, a listed site's records, in order, are exactly its feed's contribution |
| Feeds.NoSite | app.py:43-52 | a site naming no feed has no record |
| Feeds.FromSitePerm | app.py:56 | reordering the report does not change which records each site has |
| Feeds.ReportSite | app.py:41-57 | in the sorted report a listed site has exactly min(5, n) records, the first min(5, n) entries of its feed tagged with the site; so none when the feed is empty |

## Findings

| source | as written | input that shows it | evidently intended | confidence | as-written member | corrected member |
|---|---|---|---|---|---|---|
| app.py:116-125, 147 | `new_height = int(img_height * (WIDTH / img_width))` truncates a float product. For an upload in exactly the canvas's proportion, the product can be just below H, so `new_height` is H - 1. `top` is then -0.5, and the crop at line 125 is W×(H - 1). `Image.alpha_composite` at line 147, outside the `try`, needs two images of one size, so the call raises | a 666×666 background on the 1000×1000 canvas: `666 * (1000 / 666)` is 999.9999999999999 in IEEE doubles, and so `new_height` is 999. The sides 19 and 99 behave alike, as does a 57×76 image on the 750×1000 canvas | the resized side is at least the canvas side, and the box is exactly W×H, as with the floor of the exact quotient | high for the arithmetic, not executed | Canvas.ShortBox | Canvas.CenterCrop |

## Left out

- The Streamlit interface (`app.py` from line 205 on) is not modelled: widgets, session state, the `update_editable_title` callback, download buttons and the data table. It is user interaction, not computation.
- Network access and feed parsing are inputs. `feedparser.parse(url)` is replaced by an already-parsed `Feed`, whose entries hold optional title, link, published and updated values. `time.sleep(1)` does nothing observable to the result.
- The fixed `RSS_FEEDS` list of five sites is not a constant of the model; feeds come as a parameter. Every property is proved for any list of feeds, `Feeds.ReportSite` for any list with distinct site names.
- The clock is a parameter: `datetime.now()` becomes one `now` value. The source reads the clock anew for each entry without a time; the model uses one reading for the whole run.
- Feed times are limited to years 1000..9999; outside four-digit years, the padding of `%Y` depends on the platform. Only the tuple the source converts is constrained: `published` when present, else `updated`. An unused `updated` tuple may hold anything. If the tuple that is converted is one `datetime` rejects (a day its month does not have, a leap second, an hour past 23), the source raises. Such an entry does not meet `Feeds.EntryValid`, and that raising path is not modelled.
- Feeds.FetchTop5EachSite: the result is a list of records, not a pandas `DataFrame`. The Excel export is not modelled.
- `list.sort` is modelled as a stable insertion sort, `Feeds.SortDesc`. Python's sort is stable, and stable sorts on one key agree, so the output is the same. Its running time is not modelled.
- Image handling is not modelled: Pillow's decode, `convert`, the LANCZOS `resize`, `crop` pixels, `alpha_composite`, the 180/255 opacity, colours, PNG output and font loading (`get_font`, lines 64-74). Only the sizes and coordinates they are given are modelled.
- Canvas.CenterCrop: the source computes the new sizes and the aspect comparison in floating point. The model uses exact rational arithmetic, with the floor of the exact quotient for `int(img_width * (HEIGHT / img_height))`. An upload in exactly the canvas's proportion can make the float product fall just below H: `666 * (1000 / 666)` gives 999.9999999999999. The box is then one row short, and the render fails at app.py:147 (see "## Findings"). So `CenterCrop`'s W×H box and `Canvas.BaseLayerHasCanvasSize` hold of the exact-arithmetic model, which is the behaviour the source evidently intends. They do not hold of the float computation as written.
- Canvas.OverlayBand: the band fractions are exact decimals, not the binary floats `1.0 - 0.10 - 0.15` and `1.0 - 0.10`. For the 1000-row canvases both give rows 750 and 900.
- The horizontal anchor `WIDTH / 2` and the "mt" anchor of `draw.text` are not modelled; lines are placed by their top row only.
- A `title` of `None` is not modelled. The caption is a string, and the empty string takes the placeholder, as `None` would.
- Glyph widths are not modelled: the wrap, like the source, counts Unicode code points, not rendered width.
- `pages/02_社群Prompt系統.py` is not part of this model.
