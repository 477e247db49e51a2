# Falling-digits landing page: drop state and language preference

This project models the two pieces of logic in the landing page's single
component, `src/App.tsx`:

- **Language preference** (module `Preference`, `preference.dfy`). This is the
  translation table with its two codes `en` and `es`. At start-up the page
  resolves the active language from the stored `selectedLang` item and the
  browser locale. A stored value that is present and non-empty wins, because
  JavaScript's `||` treats `null` and `""` alike. Otherwise the page uses `es`
  when the locale starts with `es`, and `en` in every other case. The chosen
  code is written back to storage. The table lookup `translations[lang]`
  is modelled as an `Option`, since the stored value is never checked
  against the table.
- **Background animation** (module `DigitRain`, `rain.dfy`). The class `Rain`
  holds the canvas size and the `drops` array, with one counter per glyph
  column.
  - Set-up sizes the canvas to the viewport. It then fixes the column count
    at `floor(width / 14)` and fills `drops` with 1.
  - A resize changes only the canvas size.
  - Each timer tick walks the array in place. For each column it records the
    glyph painted at the column's current position. It then restarts the
    column (0, then incremented to 1) if the column is past the bottom and
    its random draw succeeded, and finally moves the column down one cell.

  The pure functions `Step`, `Ticked` and `Run` give one column, one tick and
  a sequence of ticks. The in-place `Tick` method is proved equal to `Ticked`.

Browser inputs become parameters:
- `localStorage` is a `map<string, string>`, read by `Load` and written by `Save`.
- `navigator.language` is a string.
- `window.innerWidth` and `window.innerHeight` are naturals.
- The two `Math.random()` uses in a tick are per-column booleans: `resets`
  decides the `> 0.975` draw and `ones` picks the glyph.

Two behaviours of the code are modelled as written:
- The stored preference is not validated. A non-empty stored value outside the table
  resolves to itself and then has no translation (`ResolvedHasTranslation`).
- The drop array is never recomputed on resize. Its length stays at the
  set-up column count (`Rain.Resize`, const `Rain.columns`).

## Model

| member | source | states |
|---|---|---|
| `Preference.Resolve` | src/App.tsx:31-33 | a non-empty stored value is returned unchanged; with no stored value or an empty one the result is "es" exactly when the locale starts with "es" and "en" exactly when it does not; the result is never empty |
| `Preference.LocaleDefault` | src/App.tsx:32 | the locale fallback is always a key of the table, and is "es" exactly when the locale starts with "es" |
| `Preference.Lookup` | src/App.tsx:15-28 | the table has a translation for exactly the codes "en" and "es"; both records carry the title "404builder" and three tags |
| `Preference.ResolvedHasTranslation` | src/App.tsx:32-40 | the resolved code has a translation if and only if storage is absent, empty, or holds "en" or "es" |
| `Preference.Load` | src/App.tsx:32 | a page load returns the stored `selectedLang` value when that key is present and non-empty, and the locale default when the key is missing or empty |
| `Preference.Save` | src/App.tsx:36-38 | saving sets `selectedLang` to the code and leaves every other key and value as it was |
| `Preference.SaveThenLoad` | src/App.tsx:32-37 | after saving a non-empty code, the next load returns that code whatever the locale |
| `Preference.SaveEmptyFallsBack` | src/App.tsx:32-37 | after saving the empty string, the next load falls back to the locale default |
| `Preference.LocaleExamples` | src/App.tsx:32 | with nothing stored, "es-PY" gives "es" and "fr-FR" gives "en"; an empty stored value with locale "es" gives "es" |
| `DigitRain.Columns` | src/App.tsx:59-60 | the column count n is the floor of width / 14: n * 14 <= width < (n + 1) * 14 |
| `DigitRain.HundredColumns` | src/App.tsx:59-60 | a 1400-pixel-wide canvas has 100 columns |
| `DigitRain.Initial` | src/App.tsx:61 | the initial drop array has the given length and every entry is 1 |
| `DigitRain.Step` | src/App.tsx:72-75 | one column either advances by one or becomes 1; it is at least 1; at or above the bottom (d * 14 <= height) it advances by exactly one; it becomes something other than d + 1 only when past the bottom with a successful draw; past the bottom with a successful draw it becomes 1 |
| `DigitRain.Ticked` | src/App.tsx:69-76 | a tick keeps the number of columns, and column i of the result is the single-column step of column i under draw i |
| `DigitRain.ColumnsIndependent` | src/App.tsx:69-76 | two drop states that agree on column i, under the same draw for i, agree on column i after a tick |
| `DigitRain.Run` | src/App.tsx:69-76 | any number of ticks keeps the number of columns; after k ticks no column is more than k cells past where it started; if every column starts at 1 or more, every column stays at 1 or more |
| `DigitRain.UniformAdvance` | src/App.tsx:72-75 | columns that share a value c and stay at or above the bottom for k ticks are all at c + k afterwards, whatever the draws |
| `DigitRain.NoEarlyRestart` | src/App.tsx:61-75 | from set-up, if k * 14 <= height, then after k ticks every column is at 1 + k and none has restarted |
| `DigitRain.Rain.constructor` | src/App.tsx:48-61 | set-up sizes the canvas to the viewport, fixes the column count at floor(width / 14), and the fresh drop array has that length with every entry 1 |
| `DigitRain.Rain.Resize` | src/App.tsx:48-53 | resizing sets width and height, keeps the object invariant (length fixed, every entry at least 1) and leaves the drop array's contents unchanged; its length is a const fixed at set-up |
| `DigitRain.Rain.Tick` | src/App.tsx:69-76 | the array afterwards is `Ticked` of the array before, at the current height; the object invariant (length fixed, every entry at least 1) is kept; glyph i is recorded at (i * 14, old drops[i] * 14) with the glyph chosen by draw i |
| `DigitRain.Scenario` | src/App.tsx:59-75 | set-up on a 1400 x 800 viewport gives 100 columns all at 1, and one tick moves every column to 2 |

## Left out

- Canvas painting calls (`fillRect`, `fillStyle`, `font`, lines 64-67). They go to a browser drawing API. Only the `fillText` call's glyph and position are recorded, as `Rain.Tick`'s `painted` result.
- `Math.random()`, the `> 0.975` float comparison and the glyph index `Math.floor(Math.random() * 2)` are floating-point randomness. They become the boolean inputs `resets` and `ones`. So the model does not capture the restart rate, about one tick in 40 past the bottom. It also does not capture that the source draws only when the height condition already holds, because `&&` short-circuits.
- The timer (`setInterval` every 33 ms, `clearInterval`), the resize listener's registration and removal, and the teardown on unmount are event-loop plumbing (lines 79-84). A tick and a resize are modelled as separate method calls.
- The early return when the canvas or its 2D context is missing (lines 43-46) is not modelled. This is browser plumbing.
- React's `useState`, `useEffect`, `useMemo` and `useRef`, the language selector's `onChange`, the JSX markup, the styling and the `Noise` component (`./components/noise` is not part of this model).
- `Rain.Tick` uses natural numbers for the drop counters. JavaScript numbers are doubles, but they stay exact integers for any number of ticks a page could run.
