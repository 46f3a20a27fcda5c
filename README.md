# gophercises: URL-redirect handler and timed quiz, in Dafny

This project models two small Go programs and proves properties of the models.

- **`urlshort`** (`2_url_shortener/handler.go`). `MapHandler` wraps a path-to-URL table in an HTTP handler. A request whose path is a key of the table is redirected to the stored URL with status 302 (`http.StatusFound`). Any other request goes to a fallback handler. `YAMLHandler` parses a YAML list of `{path, url}` records and folds it into such a table with `getMappedUrlData`; a later record for the same path overwrites an earlier one. A parse error yields no handler. Module `UrlShort`, file `url_shortener.dfy`.
- **The quiz game** (`1_quiz_game/main.go`). `getProblemsFrom` turns CSV rows into `Problem`s: field 0 is the question and field 1 the answer. `main` presents the problems in order under a single countdown. Each answer line is trimmed with `strings.TrimSpace` and compared with the stored answer. The program prints "You got N out of len(p) correct!". Module `Quiz`, file `quiz.dfy`. `strings.TrimSpace` and `unicode.IsSpace` are modelled in module `Strings`, file `strings.dfy`.

`wrappers.dfy` holds `Option` and `Result`, which stand for Go's nil-or-not `error` results.

How the model stands in for what it cannot see:

- A handler's response is the decision it takes: `Redirect(dest, 302)` or `Fallback`. `Fallback` means `fallback.ServeHTTP` is called once on the unchanged request.
- `parseYaml` (`yaml.Unmarshal`) is the `Result<seq<UrlData>, ParseError>` it produced. `YAMLHandler` takes that result as its parameter.
- `os.Open` is its error, an `Option<LoadError>`. `csv.Reader.ReadAll` is its result, a `Result<seq<seq<string>>, LoadError>`. `getProblemsFrom` takes both.
- Standard input is the sequence of raw lines that `reader.ReadString('\n')` returns, newlines included.
- The race between the timer and each answer goroutine is a cutoff `k`. `k` is the number of answers that arrive before the timer fires. Problem `i` is scored exactly when `i < k`.

Two points of the program's own behaviour that the model keeps:

- **Exhausted input.** At the end of a file or a closed pipe, `ReadString` returns `""` at once, and its error is discarded (`main.go:47`). So every remaining problem is answered with the empty string immediately; the read does not wait for the timer. `Quiz.InputLine` gives `""` for every line index past the supplied lines. On a terminal, a later read blocks again after an end of input; the supplied `lines` and the cutoff `k` describe that case too.
- **Reported total.** The total in the summary is `len(p)`, the number of problems loaded (`main.go:64`). It is not the number of problems reached before the timeout.

## Model

| member | source | states |
|---|---|---|
| `UrlShort.Handler.ServeHTTP` | 2_url_shortener/handler.go:14-24 | A redirect happens iff the request path is a key of the table, and then goes to exactly the stored URL with status 302. The fallback is used iff the path is not a key. There is no normalisation: membership is exact key equality. |
| `UrlShort.MappedUrlData` | 2_url_shortener/handler.go:68-76 | The keys of the table built from the records are exactly the set of the records' paths. |
| `UrlShort.GetMappedUrlData` | 2_url_shortener/handler.go:68-76 | The loop that inserts each record in turn builds exactly `MappedUrlData(urlData)`. Every record's path is a key, and every key is some record's path. |
| `UrlShort.LastWriteWins` | 2_url_shortener/handler.go:71-73 | If record `i` is the last record with its path, the table maps that path to record `i`'s URL. |
| `UrlShort.EntriesComeFromLastRecord` | 2_url_shortener/handler.go:69-75 | Every entry of the table comes from an input record: the last record with that path, whose URL is the stored value. There are no spurious entries. |
| `UrlShort.EmptyInputEmptyTable` | 2_url_shortener/handler.go:69-75 | The table is empty iff there are no records. |
| `UrlShort.TableSizeBound` | 2_url_shortener/handler.go:69-73 | The table has one entry per distinct path, hence at most `len(urlData)` entries. |
| `UrlShort.YAMLHandler` | 2_url_shortener/handler.go:48-58 | A parse failure yields no handler and the same error. A successful parse yields `MapHandler` over the table folded from the parsed records, with no error. |
| `UrlShort.YamlHandlerServes` | 2_url_shortener/handler.go:48-58 | The YAML-built handler redirects a path that some record names to the URL of the last such record, with 302. It sends every other path to the fallback. |
| `UrlShort.SingleRecordIsDirectTable` | 2_url_shortener/handler.go:68-76 | A one-record document yields the same table as the one-entry map given directly. |
| `UrlShort.DuplicatePathLastWins` | 2_url_shortener/handler.go:71-73 | With two records for one path, requests for that path are redirected to the second record's URL. |
| `UrlShort.ExactMatchOnly` | 2_url_shortener/handler.go:17-22 | Over `{"/golang": "https://go.dev", "/yt": "https://youtube.com"}`, `/golang` redirects to `https://go.dev`. `/golang/` and `/unknown` go to the fallback. |
| `Strings.IsSpace` | 1_quiz_game/main.go:48 | The characters `strings.TrimSpace` removes: those `unicode.IsSpace` accepts, the six ASCII spaces plus U+0085, U+00A0 and the other Unicode White_Space characters. |
| `Strings.TrimSpace` | 1_quiz_game/main.go:48 | `strings.TrimSpace`. Its value is fixed by `TrimSpaceIsSlice` and `TrimSpaceTrimmed`, and `TrimSpaceUnique` proves that those two determine it. |
| `Strings.TrimSpaceUnique` | 1_quiz_game/main.go:48 | Any slice of `s` that neither starts nor ends with a space, and whose cut-off ends are all space, equals `TrimSpace(s)`. |
| `Strings.TrimLeftSpec` | 1_quiz_game/main.go:48 | Left trimming keeps a suffix of the input, removes only spaces, and leaves no leading space. |
| `Strings.TrimRightSpec` | 1_quiz_game/main.go:48 | Right trimming keeps a prefix of the input, removes only spaces, and leaves no trailing space. |
| `Strings.TrimSpaceTrimmed` | 1_quiz_game/main.go:48 | The result of `TrimSpace` neither starts nor ends with a space. |
| `Strings.TrimSpaceIsSlice` | 1_quiz_game/main.go:48 | The result of `TrimSpace` is a contiguous slice of the input, and everything cut off on either side is space. |
| `Strings.TrimSpaceIgnoresPadding` | 1_quiz_game/main.go:48 | Adding spaces on either side of a string (a trailing newline, say) does not change its `TrimSpace`. |
| `Strings.TrimSpaceIdempotent` | 1_quiz_game/main.go:48 | Trimming twice gives the same result as trimming once. |
| `Quiz.GetProblemsFrom` | 1_quiz_game/main.go:67-89 | An open error, or failing that a read error, is returned with no problems. Otherwise there is one problem per row, in row order. Problem `i`'s question is `rows[i][0]` and its answer is `rows[i][1]`; further fields are ignored. |
| `Quiz.InputLine` | 1_quiz_game/main.go:47 | The raw line the `i`-th `reader.ReadString('\n')` returns with its error dropped: the `i`-th supplied line, or `""` once input is exhausted. |
| `Quiz.IsCorrect` | 1_quiz_game/main.go:48-56 | An answer is correct iff the trimmed input line equals the stored answer exactly. |
| `Quiz.Score` | 1_quiz_game/main.go:55-58 | The number of correct answers among the first `n` problems is at most `n`. |
| `Quiz.ScoreCountsCorrectIndices` | 1_quiz_game/main.go:40-62 | The score equals the number of indices `i` whose trimmed input line equals `p[i].Answer`. |
| `Quiz.ScoreMonotone` | 1_quiz_game/main.go:55-58 | Going from `m` to `n` problems, the counter never decreases and grows by at most `n - m`. |
| `Quiz.ScoreDependsOnlyOnPrefix` | 1_quiz_game/main.go:52-54 | The score of the first `n` problems depends only on those problems and their lines: later ones contribute nothing. |
| `Quiz.PaddedAnswerScoresSame` | 1_quiz_game/main.go:47-56 | An answer line with extra surrounding whitespace is judged the same as the bare line. |
| `Quiz.UntrimmedAnswerNeverMatches` | 1_quiz_game/main.go:48-56 | A stored answer with leading or trailing whitespace is never matched by any input line. |
| `Quiz.RunQuiz` | 1_quiz_game/main.go:34-64 | The counter equals the score of the first `min(k, len(p))` problems, so it is at most `k` and at most `len(p)`. With no timeout it equals the number of correctly answered indices. The reported total is `len(p)`. |
| `Quiz.Play` | 1_quiz_game/main.go:28-89 | A failed open or read ends the run in `log.Fatal` with the fixed text "Problem getting input from file"; the error itself is discarded. A loaded row with fewer than two fields makes the program panic (`Crash`), before any question is scored. Otherwise the summary is "the number of `i < min(k, rows)` with trimmed line `i` equal to `rows[i][1]`" out of the number of rows. |

## Left out

- Quiz.GetProblemsFrom: requires every successfully read row to have at least two fields. With fewer, `problem[1]` panics with an index out of range (`main.go:85`). `Quiz.Play`, which stands for `main`, models that panic as its `Crash` outcome; `GetProblemsFrom` alone does not.
- UrlShort.Handler: holds the table as a value. Go's `MapHandler` closes over the caller's map by reference, so later writes to that map show up in the handler; the model does not capture that aliasing. It does not arise for `YAMLHandler`, whose table is always freshly built.
- YAML decoding (`yaml.Unmarshal`): it is a foreign library. Its outcome is a parameter.
- CSV tokenising (`csv.NewReader`, `ReadAll`): it is a foreign library. Its rows or its error are a parameter.
- `http.Redirect` internals (the `Location` header, the response body), the `ResponseWriter` and `Request` plumbing, and the fallback handler's own behaviour. The response is modelled as the handler's decision only.
- The goroutine per question, the channel, `select` and `time.NewTimer`. This is concurrency, and the cutoff `k` stands for its outcome. A random choice by `select` when both cases are ready is covered, because any `k` is allowed. The leaked goroutine left blocked after a timeout is not modelled.
- Flag parsing (`-f`, `-t` and their defaults), `os.Open`/`Close`, `bufio` over `os.Stdin`, the `fmt` prompts and summary line, and the `log.Fatal` exit. These are I/O and command-line glue. Only the message passed to `log.Fatal` and the two numbers of the summary are modelled.
- Strings.IsSpace: covers Unicode's White_Space characters, which is what `unicode.IsSpace` tests. Go strings are bytes; invalid UTF-8 and the byte-level decoding that `strings.TrimSpace` does are not modelled.
