# Page interactivity of a marketing site, modelled in Dafny

`script.js` wires six behaviours into a company web page once the document has
loaded. This project models the logic under that wiring and proves what each
part promises:

- **Contact form** (`ContactForm`, `Email`). The submit handler first checks that
  name, e-mail and message are present; the phone is optional. It then checks
  the e-mail against `^[^\s@]+@[^\s@]+\.[^\s@]+$`. If both pass, it reads the
  whole stored submission log, appends one entry and writes the log back, then
  clears the form. The pattern is matched by hand with a six-phase scan
  (`IsValidEmail`). The scan is proved equal to the pattern read group by group
  (`MatchesPattern`). It is also proved equal to a declarative shape
  (`EmailShape`): no whitespace, exactly one `@`, a non-empty local part, and a
  `.` after the `@` with a character on each side. `\s` is JavaScript's set of
  whitespace and line-terminator code points.
- **Hero carousel** (`Carousel`). A class over the array of slide `active` flags,
  the shown index and a timer-running flag. A timer period is an explicit
  `Tick`. The invariant: exactly the shown slide is active, and after `k` slide
  changes the shown slide is `k mod N`.
- **Navigation toggle** (`NavToggle`). The two `active` marks flip together on a
  hamburger click. A navigation-link click clears both.
- **Smooth scrolling** (`SmoothScroll`). The scroll request for an in-page
  link: nothing for a bare `#` or for a fragment that resolves to no element.
  Otherwise the element's top minus the navbar height.
- **Navbar shadow** (`NavbarStyle`). Elevated strictly above a 100-pixel offset
  and base otherwise. The load-time check only ever elevates.
- **Reveal on scroll** (`Reveal`). A one-way hidden-to-revealed flag per observed
  block, set by intersecting visibility reports.

Each event handler runs to completion, so each is modelled as one method call.
The clock readings of a submission (its locale-formatted time and its
millisecond id) are parameters of `Submit`.

Two behaviours of the code are worth noting:

- A stored log that does not decode makes the submission throw. Nothing is
  written, the form is kept, and `Submit` returns `StorageError`. It does not
  fall back to an empty log.
- The navigation-link handler does not guard the hamburger control. On a page
  without one, it closes the menu and then fails (`ClickNavLink` returns
  `failed`).

## Model

| member | source | states |
|---|---|---|
| `Email.IsSpace` | script.js:101 | The `\s` class holds exactly JavaScript's whitespace and line-terminator code points; none of them is `@` or `.`, and all lie in the Basic Multilingual Plane |
| `Email.IsValidEmail` | script.js:101-102 | The e-mail check accepts a string exactly when it has no whitespace, exactly one `@` at a position after the first character, and a `.` after that `@` with at least one character on each side; dots may appear anywhere else |
| `Email.IsValidEmailMatchesPattern` | script.js:101-102 | The hand-written scan accepts exactly the strings that the anchored pattern `^[^\s@]+@[^\s@]+\.[^\s@]+$` matches |
| `Email.MatchesPatternIsEmailShape` | script.js:101 | The pattern, read as word `@` word `.` word over the class `[^\s@]`, describes exactly the declarative shape |
| `ContactForm.Validate` | script.js:95-105 | The missing-field verdict holds exactly when name, e-mail or message is empty (phone plays no part). The bad-e-mail verdict holds exactly when all three are present and the e-mail lacks the shape. Acceptance holds exactly when name and message are present and the e-mail has the shape. So an empty e-mail always gives the missing-field verdict and never the bad-e-mail one |
| `ContactForm.NewEntry` | script.js:112-116 | The stored entry carries name, e-mail, phone and message exactly as the form held them, followed by the given timestamp and id |
| `ContactForm.ReadLog` | script.js:111 | Reading the slot fails exactly when the stored text does not decode. A missing slot reads as the empty log, and a stored log reads as itself |
| `ContactForm.Append` | script.js:111-118 | The read-push-write fails exactly when the read fails. Otherwise the slot then holds a log one longer than before, with every earlier entry unchanged and in place and the new entry last |
| `ContactForm.ContactFormHandler.constructor` | script.js:80-83 | The handler starts over an empty form and the given storage slot |
| `ContactForm.ContactFormHandler.Submit` | script.js:83-149 | A missing field gives the missing-field notice, and a bad e-mail the bad-e-mail notice; both leave form and storage unchanged. An undecodable log gives a storage error with nothing changed. Otherwise the slot holds the old log plus one entry that copies name, e-mail, phone and message verbatim and adds the timestamp and id. The reported count is the new length, and every field is cleared |
| `ContactForm.GoodAddressAccepted` | script.js:101-102 | `a@b.com` passes the e-mail check |
| `ContactForm.NoAtRejected` | script.js:101-102 | A string without `@` fails the e-mail check |
| `ContactForm.ValidationExamples` | script.js:95-105 | `{name:"", email:"a@b.com"}` is rejected for a missing field. `{name:"A", email:"not-an-email"}` is rejected for the e-mail. `{name:"A", email:"a@b.com", phone:"", message:"hi"}` is accepted |
| `Carousel.NextSlide` | script.js:194 | The next index stays below N. It is one more than the current index, except after the last slide, where it wraps to 0 |
| `Carousel.IndexAfter` | script.js:190-198 | The index reached after any number of slide changes from slide 0 stays in `[0, N)` |
| `Carousel.IndexAfterIsMod` | script.js:190-198 | After `k` slide changes from slide 0 the shown index is `k mod N` |
| `Carousel.HeroCarousel.constructor` | script.js:184-190 | With no other slide pre-marked, initialisation leaves slide 0 as the only active slide and starts the timer. With zero slides nothing is active and no timer runs |
| `Carousel.HeroCarousel.ShowNextSlide` | script.js:192-196 | The shown index moves to the next slide circularly, and exactly that slide is active afterwards. The index equals the number of changes so far modulo N |
| `Carousel.HeroCarousel.Tick` | script.js:198 | A timer period advances the rotation by one slide while the timer runs. While it is stopped (paused, or no slides), neither the index nor any flag changes |
| `Carousel.HeroCarousel.MouseEnter` | script.js:201-205 | Entering the hero region stops the timer when the region exists. Index and flags are untouched |
| `Carousel.HeroCarousel.MouseLeave` | script.js:206-208 | Leaving the hero region starts the timer again when the region exists. Index and flags are untouched |
| `NavToggle.NavMenu.constructor` | script.js:15-16 | At load neither the menu panel nor the hamburger carries the open mark |
| `NavToggle.NavMenu.ClickHamburger` | script.js:19-25 | A hamburger click flips the menu mark and the hamburger mark together. The two stay equal, and the menu is open exactly after an odd number of clicks since load or since the last link click |
| `NavToggle.NavMenu.ClickNavLink` | script.js:28-34 | A link click leaves both marks off, whatever they were before, and resets the click parity. It fails exactly when the page has no hamburger control |
| `SmoothScroll.ScrollTarget` | script.js:38-57 | No scroll happens exactly when the link is a bare `#` or its fragment resolves to no element. Otherwise the requested offset plus the navbar height equals the element's `offsetTop` |
| `NavbarStyle.OnScroll` | script.js:65-77 | The scroll handler sets the elevated shadow exactly when the offset exceeds 100, and the base shadow exactly when it does not |
| `NavbarStyle.OnLoad` | script.js:179-181 | Above 100 the load check sets the same elevated shadow as the scroll handler. At 100 or below it leaves the shadow untouched, and any change it makes is to the elevated shadow |
| `Reveal.Handle` | script.js:159-166 | Handling reports keeps one flag per observed block |
| `Reveal.HandleReveals` | script.js:159-166 | After handling a batch of reports, a block is revealed exactly when it already was, or some report in the batch said it intersects |
| `Reveal.StaysRevealed` | script.js:159-166 | A revealed block is never hidden again, whatever reports follow |
| `Reveal.HandleIdempotent` | script.js:159-166 | Handling the same batch of reports twice gives the same flags as handling it once |
| `Reveal.RevealAnimator.constructor` | script.js:168-175 | Every observed block starts hidden |
| `Reveal.RevealAnimator.OnReports` | script.js:159-166 | The callback's in-place loop leaves exactly the flags `Handle` describes. Each block is revealed afterwards exactly when it was before or an intersecting report named it |

## Left out

- DOM lookups, `classList` and inline-style writes, the alert texts and the console lines. They are plumbing. Marks become boolean fields, and each alert becomes an `Outcome`. The logged count is the count in `Saved`.
- The storage slot holds the log already decoded. JSON encoding of entries and numeric ids is taken to round-trip unchanged. Every stored text that the read cannot turn into an array is one `Unreadable` case. That covers a parse error and a non-array value alike.
- `Date.now()` and `toLocaleString('zh-CN')` are clock and locale calls. The values they return are parameters of `Submit`.
- `ContactForm.ContactFormHandler.Submit`: the form reset is modelled as clearing every control. That assumes the page's controls have empty defaults. The markup is not part of this model.
- The commented-out `fetch` block is inert code. It is not modelled.
- The visibility observer's geometry is browser layout with fractional ratios. That covers the 10% threshold and the 50-pixel margin, so reports arrive as given.
- The initial inline hiding style and its transition curve are presentation and are not modelled.
- The 5000 ms period and `setInterval`/`clearInterval` scheduling are timing. Ticks are explicit method calls, and the timer is one running flag.
- `Carousel.HeroCarousel.MouseLeave`: only one live timer is modelled. Browsers alternate enter and leave events. An unbalanced second leave would start a second interval that the enter handler could no longer clear.
- `Carousel.HeroCarousel.constructor`: the model requires that no slide other than the first is already marked active in the page. Otherwise that slide would stay active alongside the shown one until the rotation reached it.
- `NavToggle.NavMenu.constructor`: both marks start off, as the page is loaded without them. The menu panel is taken to exist.
- The animated scroll and the browser's clamping of `scrollTo` to the scrollable range are rendering. `ScrollTarget` returns the requested offset.
- `SmoothScroll.ScrollTarget`: fragments that are not valid CSS selectors are not modelled. On such a fragment `querySelector` would throw. Resolution is a map from fragment to the element's `offsetTop`.
- `SmoothScroll.ScrollTarget`: `offsetTop` is measured from the element's offset parent. It equals the element's document top, and the element then lands just below the navbar, only when that offset parent is the body; the model does not state that placement.
- `ContactForm.Append`: the write-back (`setItem`) is taken to succeed. A quota or security error there would throw, leaving the old slot, showing no success notice and keeping the form; that failure is not modelled.
- `ContactForm.ContactFormHandler.Submit`: likewise assumes the write-back succeeds, so `StorageError` covers only a read that throws.
- The navbar element is taken to exist, as the scroll handler and `ScrollTarget` assume. The code does not guard it.
- `NavbarStyle.OnScroll`: the `lastScroll` variable is written on every scroll and never read, so it is not modelled. The scroll offset is a real number.
- `Email.IsSpace` works on Unicode scalar values, where the pattern works on UTF-16 code units. The verdicts agree: every character outside the Basic Multilingual Plane is neither whitespace nor `@`, and so are both of its surrogate halves.
