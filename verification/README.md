# Lottery store: tickets and the users/trades tables

This project models the data logic of the lottery service's storage layer (`Store.cpp`):

- **The `Ticket` codec.** A ticket is a fixed buffer of `DataSize` signed bytes. It can be built zero-filled, or from bytes or text with `strncpy` semantics. Two tickets can be swapped through a temporary buffer. `toHex` renders a ticket as a SQL literal: quoted when every byte is printable, `X'..'` hexadecimal otherwise.
- **The schema initialisation (`initDbTables`).** It returns early when both tables exist. Otherwise it creates the tables and inserts the `admin` seed row.
- **`getUser` and `setUser`.** They run over an in-memory model of the `users` and `trades` tables. `setUser` builds its multi-row trade insert with the modelled string builder. For names without quotes, the rows that statement lists are proved to be exactly the rows the model adds, and the statement repeats a pair exactly when two pending origins are equal.

Layout:

- `wrappers.dfy`: the `Option` type.
- `ticket.dfy` (module `Tickets`):
  - the byte-level specification functions: `CStrLen` and `StrNCopy` for `strncpy`, `Utf8` for `QString::toStdString`, and `Render` for `toHex`;
  - the array primitives `MemSet`, `MemCopy` and `StrNCpy`;
  - the class `Ticket`, whose `data` array is filled and swapped in place.
- `store.dfy` (module `Store`):
  - the table state `Tables`;
  - the specification functions `InitTablesEffect`, `SetUserEffect` and `Lookup`;
  - the class `Database`, whose methods update the tables step by step and are proved equal to those functions;
  - the trade insert builder `TradeInsert` and a reader for its `VALUES` list;
  - the lemmas relating the operations.

### How the model treats a few things

- **`DataSize`** is declared in `Store.h`, which is not part of this model. Here it is an uninitialised positive constant, so every proof holds for any buffer width.
- **Engine failures.** An operation receives a set `faults` of the statements the SQL engine rejects during that call. This stands in for I/O errors, a locked file and the like. A statement on a table that does not exist is rejected too. So is a statement that breaks a uniqueness constraint:
  - the seed insert, when an `admin` row exists;
  - the trade insert, when two pending origins are equal, because `unique (origin, target)` rejects the whole statement.

  A rejected statement ends the operation: `setUser` returns false and `getUser` returns nothing. Steps already done stay done. The exception is an error while `getUser` fetches the trade rows one by one (Store.cpp:190-193). It only ends the loop, and `getUser` returns the user with the origins fetched so far. The parameter `fetchError` of `Store.Database.GetUser` models this.
- **`QChar::isPrint`** is the printable ASCII range `0x20..0x7E`. A negative `qint8` converts to a code point beyond Unicode, which is not printable.
- **`QString::number(c, 16)`** on a negative value follows Qt 5, which prints the value's 64-bit two's complement.
- **Stored tickets.** A stored ticket is kept as its bytes. `getUser` reads it back through the byte-array conversion of a ticket, i.e. `strncpy` into a fresh buffer. A NULL ticket (the seed row) reads back as all zeros.

## Model

| member | source | states |
|---|---|---|
| Tickets.CStrLen | Store.cpp:18 | The length `strncpy` copies up to: no NUL before it, a NUL at it unless it is the end of the bytes (then the terminator of the byte array follows). |
| Tickets.StrNCopyAt | Store.cpp:16-23 | The copied buffer is exactly `n` bytes. Position `i` holds the source byte (non-zero) before the first NUL and zero from there on. |
| Tickets.StrNCopyTruncates | Store.cpp:18-22 | Input with no NUL among its first `n` bytes gives exactly those `n` bytes: longer input is truncated. |
| Tickets.StrNCopyPads | Store.cpp:16-23 | Shorter NUL-free input is kept whole and padded with zeros up to `n`. |
| Tickets.StrNCopyIdempotent | Store.cpp:16-19 | Copying a buffer that `strncpy` produced gives it back unchanged, so converting a stored ticket back to a ticket is lossless. |
| Tickets.Utf8Ascii | Store.cpp:20-23 | ASCII text becomes one byte per character, the character's code. |
| Tickets.Utf8NulFree | Store.cpp:22 | The encoded text has a NUL byte if and only if the text has a NUL character, so text is copied up to its first NUL. |
| Tickets.MemSet | Store.cpp:14 | After `memset`, every byte of the array equals the fill value. |
| Tickets.MemCopy | Store.cpp:35-37 | After `memcpy`, the destination holds the source's previous contents; the two may be the same array. |
| Tickets.StrNCpy | Store.cpp:18-22 | `strncpy` on the array, by its two loops (copy up to the NUL, then zero-fill), leaves exactly `StrNCopy(src, dst.Length)`. |
| Tickets.Ticket.constructor | Store.cpp:12-15 | A default ticket is `DataSize` zero bytes in a fresh buffer. |
| Tickets.Ticket.FromBytes | Store.cpp:16-19 | A ticket from a byte array holds `StrNCopy` of its bytes: the prefix up to the first NUL or `DataSize`, then zeros. |
| Tickets.Ticket.FromText | Store.cpp:20-23 | A ticket from text holds `StrNCopy` of the text's UTF-8 encoding. |
| Tickets.Ticket.Swap | Store.cpp:32-38 | After the swap, `l` holds `r`'s old bytes and `r` holds `l`'s old bytes. |
| Tickets.SwapTwice | Store.cpp:32-38 | Swapping twice restores both tickets. |
| Tickets.Ticket.ToHex | Store.cpp:40-56 | The loop returns `Render` of the buffer: the quoted characters when every byte is printable, otherwise `X'` followed by the per-byte hex digits and `'`. |
| Tickets.PrintableSnoc | Store.cpp:48-49 | One more byte keeps the buffer all-printable exactly when that byte is printable, and then appends its character. |
| Tickets.HexAppend | Store.cpp:50-51 | One round of the loop (a `0` below 16, then the number in base 16) extends the hex form by that byte's digits. |
| Tickets.RenderForm | Store.cpp:42-55 | The rendered text starts with a quote if and only if every byte is printable. It is then `'` + the characters + `'`, and otherwise the hex form. |
| Tickets.ShortInputRendersHex | Store.cpp:16-23 | Input whose C string is shorter than `DataSize` leaves a zero byte in the ticket, so it always renders in hex form. |
| Tickets.HexByteAscii | Store.cpp:50-51 | For a byte in 0..127, the loop appends exactly two lowercase digits, the high one first. |
| Tickets.HexDigitsRoundTrip | Store.cpp:45-54 | For bytes in 0..127: two lowercase hex digits per byte, and decoding the digits pairwise gives the bytes back. |
| Tickets.HexFormLength | Store.cpp:43-54 | A non-printable ticket of bytes in 0..127 renders as `2*DataSize + 3` characters: `X'`, digits that decode back to the buffer, and `'`. |
| Tickets.HexNatLength | Store.cpp:51 | A number in [16^(k-1), 16^k) is printed in base 16 with exactly k digits. |
| Tickets.NegativeByteHex | Store.cpp:47-51 | Under Qt 5 a negative byte appends 17 characters (`0` and sixteen digits), not two. |
| Tickets.QuoteBreaksQuotedForm | Store.cpp:42-55 | As written: a printable ticket `'AAA…` renders as `''AAA…'`, which begins with the empty literal `''` and which no SQL string-literal reader accepts as one literal. |
| Tickets.QuoteFreeRendersQuoted | Store.cpp:42-55 | As written: the quoted form of a printable ticket without quotes reads back as exactly its characters. |
| Tickets.PairedQuotesShorten | Store.cpp:42-55 | As written: a printable ticket `''AAA…` renders as a valid literal for `'AAA…`, one character shorter than the ticket and different from it. |
| Tickets.EscapedQuotedRoundTrip | Store.cpp:213-216 | Corrected: with quotes doubled, the quoted form of a printable ticket reads back as exactly its characters. |
| Store.Database.constructor | Store.cpp:92-110 | A freshly opened database file has no tables and no rows. |
| Store.Database.InitTables | Store.cpp:112-145 | The method's new state and result are exactly `InitTablesEffect`. It returns early when both tables exist; otherwise it creates the tables, then inserts the seed row, stopping at the first rejected statement. |
| Store.InitTablesIdempotent | Store.cpp:114-120 | When both tables exist, initialisation changes nothing. After a successful initialisation, a second one changes nothing and succeeds. |
| Store.InitTablesSeeds | Store.cpp:122-144 | On an empty database, initialisation succeeds if and only if none of its three statements is rejected. It then leaves both tables, `admin` with its fixed password and NULL flag/ticket as the only user, and no trades. |
| Store.TradeInsert | Store.cpp:227-240 | For non-empty origins, the appending loop followed by `chop(1)` gives the prefix plus one `('origin', 'name')` tuple per origin, in order, comma-separated, ending in `)` (no trailing comma). |
| Store.TerminatedList | Store.cpp:236-239 | Tuples each followed by a comma are the comma-separated list plus one final comma, which is what `chop(1)` removes. |
| Store.ValuesListRoundTrip | Store.cpp:228-240 | For names without quotes, the `VALUES` list reads back as exactly one (origin, target) pair per pending origin, in list order. |
| Store.PairsSet | Store.cpp:229-238 | The pairs the `VALUES` list names are, as a set, exactly the trades `SetUserEffect` adds. |
| Store.PairsDistinct | Store.cpp:136 | The pairs repeat, which `unique (origin, target)` rejects, exactly when two pending origins are equal. |
| Store.TradeInsertRows | Store.cpp:227-240 | For names without quotes, the statement `setUser` builds lists exactly the trades the model inserts, and violates `unique (origin, target)` exactly when the pending origins repeat. |
| Store.Database.SetUser | Store.cpp:204-249 | The method's new state and result are exactly `SetUserEffect`. It deletes the row, inserts the new one, deletes the trades at the name, and inserts the pending trades unless there are none, stopping at the first rejected statement. |
| Store.SetUserReplaces | Store.cpp:209-240 | After a successful `setUser`: exactly the new row under the name, the other rows unchanged, the trades at the name exactly the pending origins (replace, not merge), and trades at other names unchanged. |
| Store.SetUserSucceeds | Store.cpp:204-249 | `setUser` succeeds if and only if both tables exist and none of its steps is rejected. The trade insert is issued, and must succeed, only for non-empty and repetition-free origins. |
| Store.SetUserNoRollback | Store.cpp:204-249 | A failure does not roll back: a rejected insert leaves the row deleted, a rejected trade delete leaves the new row in place, and a rejected trade insert leaves no trades at the name. |
| Store.Database.GetUser | Store.cpp:166-202 | The method returns nothing exactly when `Lookup` finds nothing. Otherwise the user has the stored password and flag, the ticket read back through the byte-array conversion, and some of the origins of the trades at the name, each once, in the order the loop meets them. With no error while fetching the trade rows, it has all of them. When fetching fails after `k` rows, it has at most `k`, and all of them when fewer than `k` exist. |
| Store.SetThenLookup | Store.cpp:187-240 | After a successful `setUser(u)`, `getUser(u.name)` finds `u`'s password and flag, its ticket as read back, and exactly its pending origins. |
| Store.SecondSetUserReplaces | Store.cpp:223-240 | After two successful `setUser` calls for one name, only the second call's origins are pending. |
| Store.DistinctCount | Store.cpp:190-193 | In an origin list without repetitions, every name occurs exactly once. |
| Store.DistinctSameElements | Store.cpp:190-193 | Two repetition-free origin lists holding the same names are permutations of each other. |
| Store.SetThenGet | Store.cpp:166-249 | `setUser(u)` then `getUser(u.name)` returns `u`: the same name, password and flag, the pending origins as a permutation, and the ticket unchanged when it came from a ticket constructor. |

## Left out

- `createQtDatabase` (Store.cpp:92-110), `initDb` (Store.cpp:153-157) and `connectDb` (Store.cpp:159-164) are not modelled. They do file-system I/O and Qt's registry of named connections. `Store.Database.constructor` stands for a freshly opened, empty database file.
- `Ticket::qtRegister` (Store.cpp:25-30) is not modelled: it is Qt metatype registration.
- `randomUser` (Store.cpp:251-270) is not modelled: it depends on the engine's `random()`.
- `getByTicket` (Store.cpp:272-283) is not modelled: it depends on how the engine compares a bound text value with a blob column.
- `listUsers` (Store.cpp:285-297) is not modelled: its order is whatever the engine returns.
- SQL text is not parsed or executed. Each statement is modelled by its effect on the tables. In particular, the model does not cover:
  - the injection surface of the trade insert;
  - how an `X'..'` or quoted literal is stored;
  - how `value<Ticket>()` reads it back.

  The model stores the ticket's bytes and the names as given, which is what the program delivers only when the literal reads back correctly and the names are not numbers (see the lines below).
- Foreign keys are not modelled (SQLite leaves them off unless asked). Neither is `not null` on `password`: the model's strings have no null state, which a `QString` has and which that constraint would reject.
- Logging (`qDebug`) and the exception machinery (`throwSqlError`, `tryExecute`) become a boolean or `Option` result. Schema initialisation throws on a failing statement; here it returns false.
- `db.commit()` (Store.cpp:142) has no effect: no transaction is open at that point.
- `Tickets.IsPrint` covers `QChar::isPrint` only for the values a signed byte can take. The Unicode tables are not modelled.
- `Tickets.HexDigitsRoundTrip` and `Tickets.HexFormLength` hold only for bytes 0..127. For a negative byte, Qt 5 prints sixteen hex digits (`Tickets.QtHex`), so the literal is no longer two digits per byte. Other Qt versions print a minus sign instead.
- `Store.Database.GetUser` returns a user with a truncated `pendingTrades` when a step error occurs while the trade rows are fetched. `query.next()` at Store.cpp:190 then returns false, the loop ends, and no error is checked before Store.cpp:195 returns the user. The parameter `fetchError` gives the number of rows delivered before such an error. This contradicts the intent that a failed read returns nothing. `Store.SetThenGet` assumes no such error.
- `Store.Database.GetUser` is stated up to order: the pending origins are proved to be exactly the matching trades, each once, but their order is the engine's row order, which the model chooses arbitrarily.
- `Store.ValuesListRoundTrip` holds only for names without quotes. A quote in a name changes the statement's meaning.
- `Store.TradeInsertRows` holds only for names without quotes, for the same reason. For other names `Store.Database.SetUser` still adds `TradesFor` of the pending origins, which is not what the engine does with the injected text.
- `Store.Database.SetUser` with no rejected statement always succeeds and stores the ticket's bytes and the names unchanged. The program does not in three cases, listed on the next lines.
- `Store.SetThenLookup` and `Store.SetThenGet` do not hold for the program when the ticket has a byte of 0x80 or more. `FromText("€")` gives the bytes E2 82 AC. Under Qt 5 each such byte renders as 17 characters (`Tickets.NegativeByteHex`), so an odd number of them makes the `X'…'` literal malformed and the insert fails after the delete. An even number stores different bytes.
- `Store.SetThenLookup` and `Store.SetThenGet` do not hold for the program when the ticket is all printable and contains a quote. The insert at Store.cpp:213-221 then either fails (`Tickets.QuoteBreaksQuotedForm`, see Findings) after the delete at Store.cpp:209-211 has removed the user's row, or succeeds and stores other text. Quotes that pair up, as in `''AAA…`, make a valid literal one character shorter (`Tickets.PairedQuotesShorten`). A ticket such as `A'||'B…` stores the value of a concatenation. Without quotes the quoted form does read back as the ticket's characters (`Tickets.QuoteFreeRendersQuoted`).
- `Store.SetThenLookup` and `Store.SetThenGet` do not hold for the program for names that look like numbers. `origin` and `target` are declared `integer` (Store.cpp:132-133), so SQLite stores a name such as `007`, ` 7` or `1e3` as a number, and it reads back as `7` or `1000` (Store.cpp:192). Such names can also collide under `unique (origin, target)`, e.g. `7` and `07`, which rejects the whole insert while `Store.Distinct` accepts them. The model treats names as text.
- Concurrent writers, which could observe the window between `setUser`'s delete and insert, are not modelled.

## Findings

| source | as written | input that shows it | evidently intended | confidence | as-written member | corrected member |
|---|---|---|---|---|---|---|
| Store.cpp:42-55 | The quoted form puts the ticket's characters between quotes without doubling a `'`. `setUser` pastes this text into its insert. | A ticket whose `DataSize` bytes are all printable and whose first byte is `'` (e.g. `'AAA…`). It renders as `''AAA…'`: the empty literal `''` followed by stray text, so the insert at Store.cpp:213-221 is rejected after the delete at Store.cpp:209-211 has removed the user's row. | Quotes inside the quoted form doubled, so that the literal reads back as the ticket's characters. | not executed | Tickets.QuoteBreaksQuotedForm | Tickets.EscapedQuotedRoundTrip |
