# Invitation page: countdown, evasive buttons and calendar link

A Dafny model of the logic inside a one-page romantic invitation (a React component,
`src/App.tsx`) and of its calendar-export helper (`utils/calendar.ts`).

- `invitation.dfy`, module `Invitation`: the component's `useState` values as a class
  `InvitationView`. `Tick(now)` is the body of the one-second interval. It writes the
  milliseconds left until the end of the concert and switches irreversibly to the
  proposal screen once that time has passed. `HandleNoClick` and `HandleProposalNoClick`
  count clicks on the two "No" buttons. Each click shrinks the "No" button and grows the
  "Yes" button, both within clamps. `ToggleMusic` flips the playing flag. Beside the class
  are the pure parts: `FormatTime`, which splits a millisecond count into days, hours,
  minutes and seconds, and the labels and message panels chosen from the click counts.
- `url_query.dfy`, module `UrlQuery`: the parts of the browser's URLSearchParams that the
  helper relies on. These are the ordered pair list, `set` (section 6.2 of the WHATWG URL
  Standard) and `toString`, which is the application/x-www-form-urlencoded serializer of
  section 5.2. That serializer percent-encodes every name and value as UTF-8. The matching
  urlencoded parser is included as the serializer's inverse.
- `calendar.dfy`, module `CalendarLink`: `toGoogleCalendarUrl`. Its `fmt` turns an ISO-8601
  timestamp from `Date.prototype.toISOString` (section 21.4.4.36 of ECMA-262) into the UTC
  DATE-TIME form `YYYYMMDDTHHMMSSZ` of section 3.3.5 of RFC 5545. The method then builds the
  parameter list with two conditional `set` calls and appends the query to the render
  endpoint.
- `wrappers.dfy`, module `Wrappers`: an `Option` type, standing for `undefined` arguments
  and for a panel that is not rendered.

Notes on the source as written:
- `showProposal` starts as `true` (src/App.tsx:8), so this variant opens on the proposal
  screen. The model keeps that initial value. The properties of `Tick` hold from either
  starting value.
- Neither `<audio>` element (src/App.tsx:103, 191) is given `ref={audioRef}`. So, as
  written, `audioRef.current` stays `null` and `toggleMusic` changes nothing. The model
  takes "the audio element is attached" as a constructor parameter, `audioPresent`, and
  proves what the handler does in both cases.
- Environment inputs are parameters: the concert end instant is `concertEnd` and the
  wall-clock time is the argument `now` of `Tick`. The calendar event's `start` and `end`
  are the strings their `toISOString()` returns.

## Model

| member | source | states |
|---|---|---|
| Invitation.FormatTimeReconstructs | src/App.tsx:38-45 | for every m ≥ 0 the split has days ≥ 0, hours < 24, minutes < 60 and seconds < 60, and days·86400000 + hours·3600000 + minutes·60000 + seconds·1000 ≤ m < that sum + 1000 |
| Invitation.FormatTimeUnique | src/App.tsx:38-45 | conversely, any normal-form duration within the second below m is exactly `formatTime(m)`, so the split is the only one with those bounds |
| Invitation.FormatTimeExamples | src/App.tsx:39-42 | `formatTime(0)` is all zeros, 1000 ms is one second, and 90000 ms is 0 days, 0 hours, 1 minute and 30 seconds |
| Invitation.JsRem | src/App.tsx:40-42 | JavaScript's `%`: a remainder with the sign of the dividend, smaller than the divisor in magnitude, differing from the dividend by a multiple of the divisor |
| Invitation.FloorDiv | src/App.tsx:39-42 | `Math.floor(a / b)` for b > 0: the q with q·b ≤ a < q·b + b |
| Invitation.ShrunkClosedForm | src/App.tsx:65 | n clicks of `Math.max(floor, prev − step)` starting from 1 give max(floor, 1 − n·step), which lies in [floor, 1] |
| Invitation.GrownClosedForm | src/App.tsx:68 | n clicks of `Math.min(cap, prev + step)` starting from 1 give min(cap, 1 + n·step), which lies in [1, cap] |
| Invitation.NoButtonLabel | src/App.tsx:306 | the label is '😢' iff count > 4, 'No...' iff 2 < count ≤ 4, and 'No puedo' iff count ≤ 2 |
| Invitation.ProposalNoLabel | src/App.tsx:160 | the label is '😢' iff count > 5, 'No...' iff 3 < count ≤ 5, and 'No' iff count ≤ 3 |
| Invitation.NoMessagesExhaustive | src/App.tsx:310-318 | from the first click on exactly one message condition holds and the panel shows that message (the count-th one, or the last from the fifth click on); at count 0 none holds and there is no panel |
| Invitation.ProposalMessagesExhaustive | src/App.tsx:164-173 | the same for the proposal screen's six messages, the last one from the sixth click on |
| Invitation.LabelsAgreeWithMessages | src/App.tsx:160-172 | on both screens the button turns '😢' exactly when the panel shows its final message |
| Invitation.ToggleTwiceRestores | src/App.tsx:49-58 | two toggles restore `isPlaying`; without the audio element a toggle keeps it, with the element it flips it |
| Invitation.InvitationView.constructor | src/App.tsx:6-16 | the initial state: playing, no time left, the proposal flag set, both counts 0 and all four scales 1 |
| Invitation.InvitationView.ValidScalesInBounds | src/App.tsx:9-16 | in every reachable state the No scale is in [0.3, 1], the Yes scale in [1, 1.5], the proposal No scale in [0.2, 1] and the proposal Yes scale in [1, 2] |
| Invitation.InvitationView.Time | src/App.tsx:47 | the displayed countdown is in normal form and within a second of `timeLeft` |
| Invitation.InvitationView.Tick | src/App.tsx:22-36 | with distance = concertEnd − now: if distance > 0, `timeLeft` becomes the distance and the flag is kept; otherwise `timeLeft` becomes 0 and the flag is set. `timeLeft` stays ≥ 0, a set flag is never cleared, a tick after expiry from an expired state changes nothing, and no other field changes |
| Invitation.InvitationView.HandleNoClick | src/App.tsx:60-74 | the count goes up by exactly 1, the No scale becomes max(0.3, prev − 0.15) and the Yes scale min(1.5, prev + 0.1), the scales stay in their bounds, and nothing else changes |
| Invitation.InvitationView.HandleProposalNoClick | src/App.tsx:76-90 | the count goes up by exactly 1, the No scale becomes max(0.2, prev − 0.2) and the Yes scale min(2, prev + 0.15), the scales stay in their bounds, and nothing else changes |
| Invitation.InvitationView.ToggleMusic | src/App.tsx:49-58 | `isPlaying` flips when the audio element is present, whatever `play()` later does, and is kept otherwise; nothing else changes and the view's invariant is kept |
| UrlQuery.Utf8 | utils/calendar.ts:31 | a character becomes one to four bytes: one byte exactly for ASCII, otherwise a lead byte ≥ 0xC0 followed by continuation bytes in [0x80, 0xC0) |
| UrlQuery.Utf8Decodes | utils/calendar.ts:31 | the UTF-8 bytes of a character give back its code point |
| UrlQuery.Utf8Ascii | utils/calendar.ts:31 | on ASCII text UTF-8 gives one byte per character, equal to its code |
| UrlQuery.EncodeByte | utils/calendar.ts:31 | a byte becomes `+` exactly when it is the space; it stays one character, itself, exactly when it is the space or unreserved; otherwise it is `%` and two hexadecimal digits whose value is the byte; every character is from the serializer's alphabet |
| UrlQuery.EncodeBytes | utils/calendar.ts:31 | the serialized bytes use only `+`, `%`, hexadecimal digits and unreserved characters |
| UrlQuery.Encode | utils/calendar.ts:31 | a serialized name or value never contains `&`, `=` or a space |
| UrlQuery.EncodeAppend | utils/calendar.ts:31 | serializing a concatenation is the concatenation of the serializations |
| UrlQuery.EncodeUnreserved | utils/calendar.ts:31 | text made only of ASCII letters, digits and `*-._` is written unchanged |
| UrlQuery.DecodeEncodeBytes | utils/calendar.ts:31 | decoding (`+` to space, `%XX` to a byte) undoes the byte serializer exactly |
| UrlQuery.DecodeEncode | utils/calendar.ts:31 | decoding a serialized string gives its UTF-8 bytes |
| UrlQuery.ParseSerialize | utils/calendar.ts:21-31 | splitting the serialized query on `&`, each piece on its first `=`, and decoding gives back the UTF-8 bytes of every name and value, pair by pair and in order |
| UrlQuery.SetParamSpec | utils/calendar.ts:28-29 | after `set(name, value)` the name holds exactly [value], every other pair is kept in its order, and an absent name is appended at the end |
| UrlQuery.SearchParams.constructor | utils/calendar.ts:21-26 | the object built from the record holds its entries as pairs, in order |
| UrlQuery.SearchParams.Set | utils/calendar.ts:28-29 | the pair list is updated in place as `SetParamSpec` describes |
| CalendarLink.BeforeFirstDot | utils/calendar.ts:19 | `split(".")[0]`: a prefix of the input without `.`, ending at the first `.` or at the end of the input |
| CalendarLink.StripRemoves | utils/calendar.ts:19 | after `replace(/[-:]/g, "")` no `-` or `:` is left |
| CalendarLink.Fmt | utils/calendar.ts:18-19 | the result ends in `Z` and contains no `-`, `:` or `.` |
| CalendarLink.FmtAddsOnlyZ | utils/calendar.ts:18-19 | apart from the final `Z`, `fmt` brings in no character the input does not have |
| CalendarLink.FmtIsoTimestamp | utils/calendar.ts:17-19 | for `YYYY-MM-DDTHH:mm:ss.sssZ`, `fmt` gives `YYYYMMDDTHHmmssZ`: the fourteen digits in order, `T` at index 8, sixteen characters in the RFC 5545 UTC form |
| CalendarLink.DatesSplit | utils/calendar.ts:24 | for timestamps without `/`, `dates` holds exactly one `/`, between `fmt(start)` and `fmt(end)`, whatever their order |
| CalendarLink.CalendarParamKeys | utils/calendar.ts:21-29 | the keys are `action`, `text`, `dates`, `ctz`, then `details` iff the description is a non-empty string, then `location` iff the location is |
| CalendarLink.CalendarParamValues | utils/calendar.ts:8-29 | `action` is `TEMPLATE`, `ctz` is the timezone, `America/Mexico_City` when it is omitted, and `details` and `location` hold the event's text exactly when it is a non-empty string |
| CalendarLink.ZoneEncoding | utils/calendar.ts:8 | a zone `Area/City` of unreserved characters is sent as `Area%2FCity` |
| CalendarLink.DefaultZoneEncoding | utils/calendar.ts:8 | the default zone `America/Mexico_City` is sent as `America%2FMexico_City` |
| CalendarLink.ToGoogleCalendarUrl | utils/calendar.ts:2-32 | the returned link is the render endpoint followed by the serialization of exactly that ordered parameter list, so equal inputs give equal links |
| CalendarLink.CalendarUrlParses | utils/calendar.ts:31 | the link starts with `https://calendar.google.com/calendar/render?`, and the rest parses back into the UTF-8 bytes of the parameters' names and values, in order |

## Left out

- The JSX markup, Tailwind classes and lucide icons are presentation only.
- `Math.random` is nondeterministic and cosmetic. This covers the moves of the evasive
  buttons (src/App.tsx:71-73, 87-89) and the floating hearts (src/App.tsx:107-119, 195-207).
  The positions are not part of the state.
- `setInterval` and `clearInterval` scheduling, `new Date().getTime()` and the local-time
  parsing of the concert date (src/App.tsx:20, 23-35) are left out. The end instant is a
  constant of the view and the clock reading is the argument of `Tick`.
- `audio.play()`, `pause()`, the promise's `catch` and `console.log` are foreign browser
  calls. Only the flag flip is modelled. Both `alert` handlers (src/App.tsx:92-98) are left
  out for the same reason.
- The `import.meta.env.BASE_URL` asset paths are opaque prefixes.
- The internals of `Date.prototype.toISOString` are left out: the epoch-to-calendar
  conversion, six-digit `±YYYYYY` years, and the RangeError for an invalid date. The
  timestamp string is the input.
- JavaScript strings are UTF-16; here characters are Unicode scalar values. A lone
  surrogate, which URLSearchParams turns into U+FFFD before encoding, cannot occur.
- Invitation.InvitationView.HandleNoClick: does not model IEEE-754 rounding, because the
  scales are exact reals. `1 − 0.15 − 0.15` is not exactly 0.7 in floating point. The clamp
  bounds hold either way, because `Math.max` and `Math.min` with the clamp constants enforce
  them whatever the rounding.
- Invitation.InvitationView.HandleProposalNoClick: does not model IEEE-754 rounding either,
  for the same reason.
- Invitation.FloorDiv: `Math.floor` of a floating-point quotient is taken as the exact
  floor. For millisecond counts far below 2^53 the two agree.
- UrlQuery.SetParamSpec: does not say at which position an existing name keeps its
  value. The builder only ever `set`s names that are absent, which are appended.
