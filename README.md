# Conditional orders and portfolio lots of Streamlit-Stock-App

Streamlit-Stock-App lets a logged-in user record stock purchases in a
portfolio and place conditional orders. A buy order executes once the
market price falls to its target or below. A sell order executes once the
price rises to its target or above. An evaluation pass looks at every
pending order whenever the order page is visited, at most once every 120
seconds, or from a background bot. For each order that fires, the pass
marks the order executed, changes the owner's portfolio and reports an
execution record.

The repository implements this engine several times, over different
stores, and the variants disagree. This project models each variant
separately, in Dafny, as the code implements it:

- **app/** (`app_database.dfy`, `app_engine.dfy`, `price_parsing.dfy`): a
  SQLite app. Lots are sold oldest first (FIFO). Quote strings such as
  `"$1,234.50"` are parsed into prices.
- **src/** (`csv_storage.dfy`, `db_storage.dfy`, `portfolio_model.dfy`,
  `order_model.dfy`, `trading_bot.dfy`, `trading_bot_view.dfy`,
  `chatbot.dfy`): a layered app with a CSV backend and a SQL backend. Here
  a portfolio holds one position per ticker, and adding a position
  overwrites the position's shares. This app also has the background
  trading bot, the order page's own pass, and the chatbot's ticker
  extraction.
- **database/csv_manager.py** (`legacy_csv.dfy`): the older CSV managers.
  A portfolio is a list of lots, and a sale comes out of the first lot of
  the ticker.
- **test.py** (`legacy_app.dfy`): the single-file app, with its own
  orders file, pass, cancelling and order form.
- `throttle.dfy` holds the 120-second check throttle, which the pages
  share. `common.dfy` holds the shared vocabulary: sides, statuses, the
  matching rule, the execution record, keyed-sequence helpers and a
  stable sort.

**How things are represented.**

- Tables and files become sequences of rows.
- Objects whose fields the code updates become classes: the managers, the
  services, `Portfolio`, `Position`, the bot and the session clock.
- Prices and shares are `real`. Times are integer timestamps passed in as
  parameters.
- The market price feed is a parameter `string -> Option<real>`, and so is
  the ticker validator. The password hash is a parameter too.

**What is proved.** Each pass is a `while` loop. The loop is proved equal
to a recursive definition of the whole pass, and lemmas about that
definition state:

- which statuses can change, and to what;
- which records are reported;
- what happens to the lots.

## Model

| member | source | states |
|---|---|---|
| Common.KeyIndex | src/models/portfolio.py:64-67 | the first index whose key matches, none exactly when no element has the key |
| Common.UpsertEffect | src/models/portfolio.py:61-70 | upserting replaces the first element of the key in place, or appends when the key is new; the other elements keep their order |
| Common.UpsertDistinct | src/models/portfolio.py:61-70 | upserting an object not yet in a list without repeated objects leaves no object twice, and every element is an old one or the new one (key uniqueness is UpsertEffect) |
| Common.WithoutEffect | src/models/portfolio.py:72-76 | removing a key keeps exactly the elements of other keys, in order, and shortens the sequence exactly when the key was present |
| Common.SortBy | app/database.py:244 | the result is a permutation of the input in ascending key order, and the elements of each key keep their input order (stability) |
| Common.WithKeyMembers | test.py:238 | the rows of a user are exactly the rows whose key is that user |
| AppDatabase.FindUser | app/database.py:89-96 | the first user row of that name, none exactly when there is no such row |
| AppDatabase.UserById | app/database.py:230 | the first user row with that id, the one an order joins with; none exactly when no user has that id |
| AppDatabase.FirstUser | app/database.py:89-96 | the first user row satisfying the condition, none exactly when no row does; `FindUser` and `UserById` are this search by name and by id |
| AppDatabase.ValidateUserLogin | app/database.py:98-103 | the user id exactly when the user exists and the stored hash equals the hash of the password |
| AppDatabase.AddLotEffect | app/database.py:140-169 | a lot with the same user, ticker, entry price and date grows by `shares` and no lot is added; otherwise exactly one lot is inserted; the holding grows by `shares` and other lots stay |
| AppDatabase.AddLot | app/database.py:140-169 | the id counter stays put exactly when a lot with the same user, ticker, entry price and date exists (that lot grows in place); otherwise exactly one lot is added and the counter moves on by one |
| AppDatabase.AfterSell | app/database.py:171-208 | the sale as defined: the user's lots of the ticker in ascending purchase date go through the FIFO loop, and the result is true exactly when nothing is left unsold; AfterSellTotals, AfterSellFifo and AfterSellKeepsIds state its properties |
| AppDatabase.AddLotKeepsIds | app/database.py:140-169 | adding a position keeps lot ids unique and below the id counter, which never decreases |
| AppDatabase.AfterSellTotals | app/database.py:171-208 | the sale returns true exactly when the holding covers the quantity; the holding drops by min(quantity, holding), so a short holding is deleted with no rollback; other users' and tickers' lots are unchanged |
| AppDatabase.AfterSellFifo | app/database.py:175-202 | in ascending purchase date, each lot that fits is deleted, the first larger lot is reduced by the rest, and later lots are untouched |
| AppDatabase.AfterSellUnselectedUntouched | app/database.py:175-183 | a lot of another user or ticker is unchanged by a sale |
| AppDatabase.SellLots | app/database.py:185-202 | the loop over the selected lots, stopping once nothing remains to sell, leaves the table and remainder of the recursive sale |
| AppDatabase.SellPositions | app/database.py:171-208 | selecting the lots oldest first and running the loop gives exactly the table and flag of the sale |
| AppDatabase.SellFromKeepsIds | app/database.py:185-202 | deleting and reducing lots by id keeps lot ids unique and below the id counter |
| AppDatabase.AfterSellKeepsIds | app/database.py:171-208 | a sale keeps lot ids unique and below the id counter |
| AppDatabase.SellFromRemaining | app/database.py:185-206 | the quantity the loop cannot sell is what exceeds the selected shares |
| AppDatabase.SellFromHolding | app/database.py:185-202 | what the loop takes from the holding is what it sold; no other lot changes |
| AppDatabase.SellFromFate | app/database.py:185-202 | the fate of the j-th selected lot, in terms of the shares of the lots before it |
| AppDatabase.HoldingAfterDelete | app/database.py:200-202 | deleting a lot lowers the holding by the lot's shares |
| AppDatabase.HoldingAfterSet | app/database.py:193-199 | setting a lot's shares changes the holding by the difference |
| AppDatabase.SetStatusEffect | app/database.py:266-276 | the order with that id gets the status whatever it was; no other order or column changes |
| AppDatabase.Joined | app/database.py:230-242 | exactly the orders passing every given filter whose user exists, joined with the username |
| AppDatabase.QueryOrders | app/database.py:227-264 | as `Joined`, newest `created_at` first, and a permutation of the joined rows |
| AppDatabase.Database.constructor | app/database.py:18-67 | three empty tables |
| AppDatabase.Database.AddUser | app/database.py:73-87 | false and nothing stored when the name is taken; otherwise one user row with the hashed password |
| AppDatabase.Database.UpdateUserPassword | app/database.py:105-117 | every row of the name gets the new hash; the result says whether the user exists |
| AppDatabase.Database.AddToPortfolio | app/database.py:140-169 | the lots table becomes the merge-or-insert of `AddLotEffect` |
| AppDatabase.Database.UpdatePortfolioAfterSell | app/database.py:171-208 | the loop over the selected lots leaves the table and the flag of the FIFO sale, keeping ids unique |
| AppDatabase.Database.AddOrder | app/database.py:210-225 | one new pending order with the given fields, stamped now; always true |
| AppDatabase.Database.UpdateOrderStatus | app/database.py:266-276 | the status of the order with that id is set, no other order changes |
| AppEngine.LoadOrdersDbByName | app/app.py:143-164 | filtering by a username keeps exactly the joined rows of that name; an unknown name gives no rows; the rows stay newest first |
| AppEngine.ByIdIsByName | app/app.py:143-164 | for a listed user, the orders joined to its id are exactly the joined orders carrying its name |
| AppEngine.Fired | app/app.py:226-269 | one record per order that fires, at its execution price and with the order's quantity |
| AppEngine.PassRecords | app/app.py:261-269 | the pass reports exactly the fired records, whatever the tables hold |
| AppEngine.PassStatuses | app/app.py:243-244 | after a pass an order is executed exactly when some loaded order with its id fired; a skipped order keeps its status |
| AppEngine.PassQuiet | app/app.py:172-176 | a pass where nothing fires changes nothing and reports nothing (in particular with no pending orders) |
| AppEngine.PassStep | app/app.py:180-269 | the pass over a longer list is one step followed by the rest |
| AppEngine.ExecuteOnDb | app/app.py:243-259 | the status is set executed first; then a buy adds a lot at the execution price dated today, and a sell runs the FIFO sale with its result ignored |
| AppEngine.ExecutionPrice | app/app.py:184-241 | a price exactly when the owner exists, the quote yields a usable price and that price meets the order's rule; the price is then the quote's |
| AppEngine.ProcessOrder | app/app.py:180-269 | an unknown user, an unusable price or an untriggered rule changes nothing and reports nothing; otherwise the order executes and is reported |
| AppEngine.RunPass | app/app.py:180-273 | the loop equals the recursive pass over the loaded orders |
| AppEngine.CheckOrdersDb | app/app.py:170-273 | the pass over the pending orders loaded once at the start |
| AppEngine.CancelOrderDb | app/app.py:276-278 | the order becomes cancelled whatever its status; always true |
| AppEngine.BuyBotVisit | app/app.py:643-657 | the pass runs exactly when the throttle says it is due, and the stamp becomes now; otherwise nothing is written |
| PriceParsing.FindDot | app/app.py:217 | the index of the first "." when there is one |
| PriceParsing.StripPrice | app/app.py:217 | the stripped text holds no "$" and no "," |
| PriceParsing.StripConcat | app/app.py:217 | stripping distributes over concatenation |
| PriceParsing.StripClean | app/app.py:217 | text without "$" and "," is left as it is |
| PriceParsing.ThousandsSeparatorIgnored | app/app.py:215-217 | a thousands separator does not change the parsed price |
| PriceParsing.DollarText | app/app.py:196-217 | text starting with "$" is read as the number left after removing every "$" and "," |
| PriceParsing.StripSeparator | app/app.py:215-217 | removing "$" and "," drops a "," wherever it stands |
| PriceParsing.DecimalRoundTrip | app/app.py:217 | a decimal literal parses to its value |
| PriceParsing.DollarPrefix | app/app.py:216-217 | a dollar string parses as its remainder |
| PriceParsing.DollarQuoteRoundTrip | app/app.py:215-217 | the quote text "$whole.fraction" is read back as that price |
| PriceParsing.NatDigitsValue | app/app.py:217 | the digits `str()` prints for a natural number denote it |
| PriceParsing.WholeDollarRoundTrip | app/app.py:215-217 | the quote "$n" is read back as n |
| PriceParsing.NoPriceFallsBack | app/app.py:195-224 | a failed quote or "N/A" falls back to the last close; text that is neither "N/A" nor a dollar string skips the order |
| PriceParsing.NoneTextSkips | app/app.py:214-217 | the text of a missing price, "$None", does not parse as a number, so the pass skips the order |
| PriceParsing.ParseFloat | app/app.py:217 | `float()` on a finite literal (an optional sign, digits with an optional fraction, an optional exponent): a literal with no digit never parses, and a string of digits parses to the number it denotes |
| PriceParsing.CurrentPrice | app/app.py:195-224 | a failed quote or "N/A" gives the last close; a numeric price is used as it is; a text price is used only when it starts with "$" and holds a digit; any other value skips the order |
| PriceParsing.SignedLiteral | app/app.py:217 | a leading "-" negates the parsed value and a leading "+" keeps it |
| PriceParsing.ExponentAt | app/app.py:217 | a literal is the mantissa before its first "e" scaled by ten to the exponent after it |
| PriceParsing.ScientificRoundTrip | app/app.py:217 | "whole.fraction" "e" n parses to the decimal value times ten to the n |
| PriceParsing.SmallScientificRoundTrip | app/app.py:217 | "whole" "e-" n, the form `str()` prints small floats in, parses to the whole number times ten to the minus n |
| PriceParsing.DollarScientific | app/app.py:215-217 | a quote such as "$5e-05" is read back as the number it denotes |
| Throttle.SessionClock.Poll | src/views/trading_bot_view.py:58-71 | a first visit stamps "initNow - 120"; the visit is due exactly when more than 120 s have passed since the stamp, and a due visit stores now |
| Throttle.RunsAreSpaced | src/views/trading_bot_view.py:63-71 | over any visits, every run is more than 120 s after the previous run, so at most one run happens in any 120-second window |
| Throttle.Visits | src/views/trading_bot_view.py:58-71 | a session that calls `Poll` once per visit runs the pass at exactly the visits `Runs` lists from its stamp, so the two lemmas below hold of real sessions |
| Throttle.FirstRunIsFirstLateVisit | src/views/trading_bot_view.py:63 | no late visit is skipped: the first run is the first visit more than 120 s past the stamp |
| CsvStorage.FirstHash | src/database/csv_manager.py:76-78 | the hash of the user's first row, none exactly when the user is absent |
| CsvStorage.AddedUserValidates | src/database/csv_manager.py:54-78 | a user just added validates with exactly the hash it was added with |
| CsvStorage.FirstHashAfterChange | src/database/csv_manager.py:80-87 | after a password change the user's first hash is the new one and other users' hashes are as before |
| CsvStorage.PasswordChangeValidates | src/database/csv_manager.py:73-87 | after a change the user validates with exactly the new hash; other users validate as before |
| CsvStorage.UserManager.ValidateUser | src/database/csv_manager.py:73-78 | true exactly when the first row of the user holds the given hash |
| CsvStorage.UserManager.constructor | src/database/csv_manager.py:39-47 | an empty users file |
| CsvStorage.UserManager.AddUser | src/database/csv_manager.py:54-71 | false and no change when the name exists; otherwise one row is appended and the result is true |
| CsvStorage.UserManager.UpdatePassword | src/database/csv_manager.py:80-87 | false and no change for an absent user; otherwise every row of the user gets the new hash |
| CsvStorage.WithoutOverwritten | src/database/csv_manager.py:114-118 | overwriting a ticker's rows leaves the other tickers' rows as they were |
| CsvStorage.PositionAddedEffect | src/database/csv_manager.py:103-127 | all rows of an existing ticker hold exactly the new shares, price and date (not a sum); a new ticker gets one row; other tickers' rows are unchanged and in order |
| CsvStorage.PortfolioManager.constructor | src/database/csv_manager.py:92-101 | no portfolio files |
| CsvStorage.PortfolioManager.Write | src/database/csv_manager.py:34-36 | the user's file becomes the written rows |
| CsvStorage.PortfolioManager.AddPosition | src/database/csv_manager.py:103-127 | the user's file becomes the overwrite-or-append of `PositionAddedEffect` |
| CsvStorage.PortfolioManager.RemovePosition | src/database/csv_manager.py:129-136 | true exactly when the ticker has a row, and then all its rows are deleted; otherwise nothing is written |
| CsvStorage.LabelledFromEffect | src/database/csv_manager.py:172-182 | the labelled rows from a label on are the rows of the owner with their file positions, in file order |
| CsvStorage.OrdersOfEffect | src/database/csv_manager.py:172-182 | `get_orders` yields each row of the requested owner exactly once, labelled by its file position, in file order |
| CsvStorage.AllLabelled | src/database/csv_manager.py:172-182 | with no username every row is listed |
| CsvStorage.OrderManager.constructor | src/database/csv_manager.py:141-148 | an empty orders file |
| CsvStorage.OrderManager.AddOrder | src/database/csv_manager.py:150-170 | one pending row with the given fields, created now, is appended |
| CsvStorage.OrderManager.UpdateOrderStatus | src/database/csv_manager.py:184-193 | false and no change out of range; otherwise only that row's status changes |
| CsvStorage.OrderManager.Write | src/database/csv_manager.py:34-36 | the file becomes the written rows |
| PortfolioModel.Position.constructor | src/models/portfolio.py:15-25 | a position with the given columns and no metrics |
| PortfolioModel.Position.CalculateMetrics | src/models/portfolio.py:27-33 | value = shares·price, profit = value − shares·entry, percentage 0 when the purchase value is 0 |
| PortfolioModel.PositionReturn | src/models/portfolio.py:31-33 | the percentage is the price's return over the entry price whatever the shares; 0 for no shares or a zero entry price |
| PortfolioModel.RowsOf | src/models/portfolio.py:85-90 | one row of stored columns per position |
| PortfolioModel.PortfolioProfitIsSum | src/models/portfolio.py:78-83 | once every position is priced, total value − total cost is the sum of the positions' profits |
| PortfolioModel.Portfolio.constructor | src/models/portfolio.py:52-59 | an empty portfolio with zero totals |
| PortfolioModel.Portfolio.AddPosition | src/models/portfolio.py:61-70 | the first position of the ticker is replaced at its index, or the position is appended |
| PortfolioModel.Portfolio.RemovePosition | src/models/portfolio.py:72-76 | the other tickers' positions stay in order; true exactly when one was removed |
| PortfolioModel.Portfolio.CalculateMetrics | src/models/portfolio.py:78-83 | total value over positions that have one, total cost Σ shares·entry, percentage 0 when the cost is 0 |
| PortfolioModel.RowsOfUpsert | src/models/portfolio.py:61-70 | upserting a position upserts its row |
| PortfolioModel.LastIndex | src/models/portfolio.py:109-116 | the index of the last row of a ticker, none exactly when there is no row |
| PortfolioModel.DedupUnique | src/models/portfolio.py:109-118 | a loaded portfolio has at most one position per ticker |
| PortfolioModel.DedupKeys | src/models/portfolio.py:109-118 | a loaded portfolio holds exactly the tickers of the file |
| PortfolioModel.DedupLastRowWins | src/models/portfolio.py:109-118 | each loaded position holds the values of the last row of its ticker |
| PortfolioModel.LastRowWinsAt | src/models/portfolio.py:109-118 | the position at a given index of a loaded portfolio holds the values of the last row of its ticker |
| PortfolioModel.DedupOfUnique | src/models/portfolio.py:109-118 | a file with one row per ticker loads as exactly its rows |
| PortfolioModel.TickersOfLoaded | src/models/portfolio.py:134-137 | `get_tickers` lists the file's tickers once per row, naming exactly the loaded portfolio's tickers, and is longer when the file repeats a ticker |
| PortfolioModel.PortfolioService.constructor | src/models/portfolio.py:96-99 | a service for the user over the manager |
| PortfolioModel.PortfolioService.LoadPortfolio | src/models/portfolio.py:101-118 | a new portfolio of new positions whose rows are the upsert of the file's rows in file order |
| PortfolioModel.PortfolioService.AddLoadedRow | src/models/portfolio.py:110-116 | one loop step: a new position for the row, upserted |
| PortfolioModel.PortfolioService.SavePortfolio | src/models/portfolio.py:120-123 | the user's file becomes the portfolio's rows |
| PortfolioModel.PortfolioService.AddPosition | src/models/portfolio.py:125-128 | the manager's overwrite-or-append |
| PortfolioModel.PortfolioService.RemovePosition | src/models/portfolio.py:130-132 | the manager's removal |
| OrderModel.AsOrders | src/models/order.py:83-94 | one order per listed row |
| OrderModel.OrderListEffect | src/models/order.py:75-96 | every listed order is the row its id labels, the owner's rows are all listed in file order, and an empty file gives none |
| OrderModel.PendingOnlyEffect | src/models/order.py:98-101 | exactly the pending orders, in order; the filter distributes over concatenation |
| OrderModel.PendingOnlyMembers | src/models/order.py:98-101 | an order is kept exactly when it is in the list and pending, and the result is no longer than the list |
| OrderModel.PendingOnlyAppend | src/models/order.py:98-101 | the filter of a concatenation is the concatenation of the filters |
| OrderModel.MarkMatchingEffect | src/models/order.py:111-115 | the masked update changes only pending rows of the user, ticker and time, and only to the new status; executed and cancelled rows are untouched |
| OrderModel.CancelInRangeSucceeds | src/models/order.py:103-119 | for a non-empty username, the cancel target exists exactly when the index is within the user's pending orders, and it is a pending row of the user |
| OrderModel.CancelWithEmptyUsername | src/models/order.py:105-112 | the empty username lists every user's orders but its mask matches no row |
| OrderModel.LabelledFromUngiven | src/database/csv_manager.py:179-180 | the empty username filters nothing |
| OrderModel.SellLoadedAt | src/models/order.py:185-199 | the sell on the loaded portfolio in terms of the position's index |
| OrderModel.SellOnUniqueFile | src/models/order.py:188-199 | on a file of one row per ticker, a sell reduces the ticker's row when it holds more and removes the ticker otherwise |
| OrderModel.SellOfUnheldTicker | src/models/order.py:190 | selling an unheld ticker writes nothing |
| OrderModel.BuyOverwritesHolding | src/models/order.py:175-182 | a buy of a held ticker stores the bought quantity and execution price, not a sum |
| OrderModel.Filled | src/models/order.py:175-199 | nothing is written exactly when the order is a sell of a ticker the file does not hold; a buy always writes |
| OrderModel.SellFilled | src/models/order.py:183-199 | a sell writes nothing exactly when the file does not hold the ticker; SellOnUniqueFile gives what it writes |
| OrderModel.OrderService.constructor | src/models/order.py:45-47 | a service over the given managers |
| OrderModel.OrderService.CreateOrder | src/models/order.py:49-71 | the order's status is forced to pending and one pending row with its fields is appended |
| OrderModel.OrderService.GetOrders | src/models/order.py:75-96 | the orders of the listed rows, with the row labels as ids |
| OrderModel.OrderService.GetPendingOrders | src/models/order.py:98-101 | the pending orders among `get_orders`, in order |
| OrderModel.OrderService.CancelOrder | src/models/order.py:103-119 | false and no change without a target; otherwise only pending rows of the target's user, ticker and time become cancelled |
| OrderModel.OrderService.ExecuteOrder | src/models/order.py:121-199 | no change unless the order is pending, the rechecked price exists and meets the rule, and a pending row matches; otherwise rows become executed and the owner's file changes as `Filled` says |
| OrderModel.OrderService.ReduceAndSave | src/models/order.py:192-196 | the position's shares are reduced in place and the portfolio is saved |
| OrderModel.OrderService.SellPosition | src/models/order.py:183-199 | the owner's file becomes the sell of `SellFilled`, or is unchanged when the ticker is not held |
| OrderModel.OrderService.SellFromPortfolio | src/models/order.py:185-199 | the sell branch once the portfolio is loaded |
| TradingBot.AfterExecute | src/models/order.py:133-199 | the stores after `execute_order`: unchanged when it declines, otherwise rows marked and the owner's file filled |
| TradingBot.PassSnoc | src/services/trading_bot_service.py:73-108 | the pass over one more order is one more step |
| TradingBot.Pass | src/services/trading_bot_service.py:73-108 | the pass as defined: each pending order, in list order, takes one step on the stores; PassSnoc and PassStatuses state its properties |
| TradingBot.Records | src/services/trading_bot_service.py:96-108 | the records as defined: one report per order that fires, in order; RecordsFromFired, RecordsComplete and RecordsEffect state its properties |
| TradingBot.RecordsSnoc | src/services/trading_bot_service.py:96-108 | the records of one more order are the earlier ones plus its record if it fired |
| TradingBot.RecordsEffect | src/services/trading_bot_service.py:77-108 | every record belongs to a fired pending order at its quoted price, at most one per order |
| TradingBot.RecordsFromFired | src/services/trading_bot_service.py:77-108 | there are at most as many records as pending orders, and each is the report of a fired order |
| TradingBot.RecordsComplete | src/services/trading_bot_service.py:77-108 | every fired order has its record |
| TradingBot.PassStatuses | src/services/trading_bot_service.py:73-108 | a pass changes rows only from pending to executed |
| TradingBot.RecordedWhenDeclined | src/services/trading_bot_service.py:96-108 | a fired order is reported even when `execute_order` declines and nothing is written |
| TradingBot.TryOrder | src/services/trading_bot_service.py:74-108 | a missing price or unmet rule skips the order; otherwise `execute_order` runs and the order is reported |
| TradingBot.TradingBotService.constructor | src/services/trading_bot_service.py:19-30 | a stopped bot with no thread, no last check and no records |
| TradingBot.TradingBotService.Start | src/services/trading_bot_service.py:32-38 | starting a running bot does nothing; otherwise it runs with a thread |
| TradingBot.TradingBotService.Stop | src/services/trading_bot_service.py:40-44 | the flag is cleared; nothing else changes |
| TradingBot.TradingBotService.GetLastCheckTime | src/services/trading_bot_service.py:46-48 | the stored time, or now when there is none |
| TradingBot.TradingBotService.GetExecutedOrders | src/services/trading_bot_service.py:50-54 | the records in insertion order, leaving the buffer empty |
| TradingBot.TradingBotService.CheckPendingOrders | src/services/trading_bot_service.py:67-112 | the loop over the pending orders listed once equals the recursive pass, and appends exactly its records |
| TradingBot.TradingBotService.ProcessOrder | src/services/trading_bot_service.py:74-108 | one order's step and its record |
| TradingBot.TradingBotService.RunRound | src/services/trading_bot_service.py:58-61 | one round: the pass, then the last check time becomes now |
| TradingBotView.CheckPendingOrders | src/views/trading_bot_view.py:13-48 | the page's pass returns exactly the records of the pass and leaves the stores of the pass |
| TradingBotView.Visit | src/views/trading_bot_view.py:58-71 | the pass runs exactly when the throttle is due; otherwise nothing is written and nothing is returned |
| TradingBotView.HoldingsLastWins | src/views/trading_bot_view.py:130-132 | the holdings have exactly the rows' tickers, each with the shares of its last row |
| TradingBotView.LoadedHoldings | src/views/trading_bot_view.py:127-132 | the holdings of a loaded portfolio are those of the file's last rows per ticker |
| TradingBotView.TotalHoldings | src/views/trading_bot_view.py:130-132 | the loop builds the holdings of the positions |
| TradingBotView.BuyIgnoresHoldings | src/views/trading_bot_view.py:190-199 | a buy is accepted exactly when ticker, price and quantity are valid, whatever the holdings |
| TradingBotView.SellAcceptedOnFile | src/views/trading_bot_view.py:175-189 | a sell is accepted exactly when the form is valid and the last file row of the ticker holds at least the quantity |
| TradingBotView.SubmitOrder | src/views/trading_bot_view.py:174-201 | an order is created pending exactly when it is accepted; otherwise nothing is written |
| TradingBotView.SubmitFromPage | src/views/trading_bot_view.py:122-201 | the form is judged against the holdings of the loaded portfolio |
| DbStorage.ValidatesUnique | src/database/db_manager.py:150-158 | with unique names a user validates exactly with its row's hash; an absent user never validates |
| DbStorage.UserDatabaseManager.ValidateUser | src/database/db_manager.py:150-158 | true exactly when the first row the query returns for the user holds the given hash |
| DbStorage.UserDatabaseManager.constructor | src/database/db_manager.py:41-46 | an empty users table |
| DbStorage.UserDatabaseManager.AddUser | src/database/db_manager.py:138-148 | false without inserting when the name exists; otherwise one row is inserted; names stay unique |
| DbStorage.UserDatabaseManager.UpdatePassword | src/database/db_manager.py:160-170 | false for an absent user; otherwise the user's hash is set |
| DbStorage.PositionAddedIsUpsert | src/database/db_manager.py:227-253 | on one row per ticker, the update-or-insert is the keyed upsert |
| DbStorage.PortfolioTable.constructor | src/database/db_manager.py:50-58 | an empty portfolios table |
| DbStorage.PortfolioDatabaseManager.constructor | src/database/db_manager.py:180-183 | a manager for the user over the table |
| DbStorage.PortfolioDatabaseManager.AddPosition | src/database/db_manager.py:227-253 | the user's rows become the upsert of the new row, overwriting shares, price and date |
| DbStorage.PortfolioDatabaseManager.RemovePosition | src/database/db_manager.py:255-262 | true exactly when a row of the ticker existed, and then it is deleted |
| DbStorage.PortfolioDatabaseManager.Write | src/database/db_manager.py:205-225 | an empty frame changes nothing; otherwise the user's rows become the frame, one row per ticker with later rows winning |
| DbStorage.WithoutUnique | src/database/db_manager.py:255-262 | deleting keeps the tickers unique |
| DbStorage.RecordsOf | src/database/db_manager.py:272-286 | the columns of each row, ids dropped |
| DbStorage.QueryEffect | src/database/db_manager.py:325-332 | exactly the rows of the user when one is given, all rows otherwise |
| DbStorage.SetStatus | src/database/db_manager.py:334-341 | the update by id keeps the table's length |
| DbStorage.SetStatusEffect | src/database/db_manager.py:334-341 | the one row with that id gets the status whatever it was; an absent id changes nothing |
| DbStorage.Reinserted | src/database/db_manager.py:294-309 | one pending row stamped now per frame row |
| DbStorage.Restored | src/database/db_manager.py:294-309 | one row per frame row, keeping its columns |
| DbStorage.WriteLosesStatuses | src/database/db_manager.py:294-323 | a frame with a non-pending row does not survive the write, and every written row is pending |
| DbStorage.RestoredRoundTrip | src/database/db_manager.py:272-309 | the status-keeping write reads back exactly the frame, with increasing ids |
| DbStorage.OrderDatabaseManager.constructor | src/database/db_manager.py:64-74 | an empty orders table whose next id is 1 |
| DbStorage.OrderDatabaseManager.AddOrder | src/database/db_manager.py:311-323 | one pending row created now under the next id |
| DbStorage.OrderDatabaseManager.UpdateOrderStatus | src/database/db_manager.py:334-341 | true exactly when a row has the id; the status is set with no check of the old one |
| DbStorage.OrderDatabaseManager.Write | src/database/db_manager.py:288-309 | an empty frame is a no-op; otherwise every row is re-inserted pending, stamped now |
| DbStorage.OrderDatabaseManager.InsertRow | src/database/db_manager.py:294-309 | one row with its own columns under the next id |
| DbStorage.OrderDatabaseManager.WriteRows | src/database/db_manager.py:288-309 | the status-keeping write: the table reads back as the frame |
| LegacyCsv.FirstUser | database/csv_manager.py:60-65 | the first row of the user, none exactly when there is none |
| LegacyCsv.DuplicateUserShadowed | database/csv_manager.py:47-65 | adding a taken name changes no lookup |
| LegacyCsv.FirstHashAppend | database/csv_manager.py:47-58 | an appended row only matters for a name that had no row |
| LegacyCsv.UserManager.constructor | database/csv_manager.py:39-45 | an empty users file |
| LegacyCsv.UserManager.AddUser | database/csv_manager.py:47-58 | the row is appended whether or not the name is taken |
| LegacyCsv.UserManager.UpdatePassword | database/csv_manager.py:67-74 | false for an unknown user; otherwise every row of the user gets the hash |
| LegacyCsv.FilteredEffect | database/csv_manager.py:106-113 | exactly the rows meeting each given filter; the filters apply independently; no filter keeps every row |
| LegacyCsv.SetStatusWhere | database/csv_manager.py:115-121 | the update keeps the file's length |
| LegacyCsv.SetStatusWhereEffect | database/csv_manager.py:115-121 | exactly the rows of the user and time get the status; other rows are unchanged |
| LegacyCsv.OrderManager.constructor | database/csv_manager.py:79-85 | an empty orders file |
| LegacyCsv.OrderManager.AddOrder | database/csv_manager.py:87-104 | one pending row is appended; always true |
| LegacyCsv.OrderManager.UpdateOrderStatus | database/csv_manager.py:115-121 | every row of the user and time gets the status; always true |
| LegacyCsv.TickerSharesAppend | database/csv_manager.py:135-149 | a ticker's total over two files is the sum of the totals |
| LegacyCsv.FirstLotSoldEffect | database/csv_manager.py:151-165 | a sale fails exactly when the ticker has no lot; otherwise the holding drops by the quantity or by the whole first lot, and other tickers' lots stay in order |
| LegacyCsv.FirstLotSold | database/csv_manager.py:151-165 | a sale fails exactly when the ticker has no lot, and never lengthens the file |
| LegacyCsv.PortfolioManager.constructor | database/csv_manager.py:126-133 | an empty portfolio file for the user |
| LegacyCsv.PortfolioManager.AddPosition | database/csv_manager.py:135-149 | a new lot is appended even for a held ticker; always true |
| LegacyCsv.PortfolioManager.RemoveShares | database/csv_manager.py:151-165 | false with no change when the ticker has no lot; otherwise the first-lot sale |
| LegacyApp.ExecutedWhere | test.py:191-193 | the mask keeps the file's length |
| LegacyApp.ExecutedWhereEffect | test.py:191-193 | every row of the user, ticker and time becomes executed whatever its status, and no other row changes |
| LegacyApp.NoPendingExactly | test.py:166-170 | the pass returns False exactly when no row is pending, and then changes nothing |
| LegacyApp.CheckStepEffect | test.py:175-229 | one step only moves rows to executed and reports at most the fired order at the price read |
| LegacyApp.CheckStep | test.py:175-229 | one order's step as defined: no price or an unmet rule changes nothing; otherwise the order's rows become executed, and the owner's file is filled and the order reported, unless that file is missing for another user; CheckStepEffect states its properties |
| LegacyApp.CheckPrefixEffect | test.py:172-229 | over the pass rows only become executed, and each record is a snapshot row whose price met its rule |
| LegacyApp.MissingFileLeavesExecuted | test.py:191-206 | a firing order of another user without a portfolio file stays executed with no record and no portfolio write |
| LegacyApp.BuyStepAddsLot | test.py:196-205 | a firing buy appends a lot at the market price and the holding grows by the quantity |
| LegacyApp.CancelHitsWrongOrder | test.py:236-244 | the counterexample of the Findings table |
| LegacyApp.CancelDisplayedEffect | test.py:697-708 | cancelling from the page's list cancels a pending order of the user; only rows of the user and that time change |
| LegacyApp.GroupedIsTotal | test.py:631-636 | the grouped holdings have exactly the lots' tickers, each with its total shares |
| LegacyApp.NoLotNoShares | test.py:631-636 | a ticker without lots totals 0 |
| LegacyApp.SellAcceptedByTotal | test.py:679-694 | a sell is accepted exactly when the form is valid and the ticker's lots total at least the quantity |
| LegacyApp.LegacyFiles.constructor | test.py:137-140 | no orders and no portfolio files |
| LegacyApp.LegacyFiles.AddOrder | test.py:151-164 | one pending row created now is appended; always true |
| LegacyApp.LegacyFiles.CheckRow | test.py:175-229 | one loop step equals `CheckStep` on the frame and the files |
| LegacyApp.LegacyFiles.CheckOrders | test.py:166-233 | the loop over the pending snapshot, then the save, equals the definition of the pass |
| LegacyApp.LegacyFiles.CancelOrder | test.py:236-244 | as written: the index counts the user's orders of any status; false and no change when out of range |
| LegacyApp.LegacyFiles.CancelPendingOrder | test.py:697-708 | corrected: the index counts the page's pending list |
| LegacyApp.LegacyFiles.SubmitOrder | test.py:679-694 | an order is added pending exactly when it is accepted against the grouped holdings |
| Chatbot.Upper | src/services/chatbot_service.py:100 | upper-casing keeps the length |
| Chatbot.UpperEffect | src/services/chatbot_service.py:100 | no lower-case letter is left and whitespace stays where it was |
| Chatbot.SplitFromWords | src/services/chatbot_service.py:100 | every word is non-empty, has no whitespace and is made of the input's characters |
| Chatbot.SplitFromRun | src/services/chatbot_service.py:100 | a run of non-whitespace joins the word in progress |
| Chatbot.WordsOfJoined | src/services/chatbot_service.py:100 | splitting undoes joining by spaces |
| Chatbot.FirstTickerIsFirst | src/services/chatbot_service.py:101-106 | the answer is the first word that looks like a ticker and passes validation; none exactly when no word does |
| Chatbot.ExtractTicker | src/services/chatbot_service.py:98-106 | an answer is 1 to 5 letters A-Z, not a stop word, and passes the lookup; FirstTickerIsFirst and ExtractFromWords show it is the first such word of the upper-cased question |
| Chatbot.ExtractFromWords | src/services/chatbot_service.py:98-106 | a question of upper-case words yields the first qualifying word |
| Chatbot.UpperJoined | src/services/chatbot_service.py:100 | joining words that are already upper-case gives an upper-case question |

## Left out

- Streamlit rendering and widgets, `st.rerun`, and the session state apart from the throttle stamp. These are UI.
- yfinance and every HTTP client, including `generate_response`. Each price source is a parameter returning `Option<real>`.
- Exceptions that the code catches in its loops. Each one becomes the branch in which the order changes nothing, except in test.py, where a missing portfolio file of another user is modelled where it arises.
- The background thread and its sleep loop in `TradingBotService._run_bot`. One round is modelled as `TradingBot.TradingBotService.RunRound`.
- AppEngine.ExecutionPrice, TradingBot.Fires, TradingBot.Pass, TradingBot.Records, TradingBotView.CheckPendingOrders and LegacyApp.CheckStep: the code fetches a fresh quote for every order it looks at (app/app.py:193, src/services/trading_bot_service.py:77, src/views/trading_bot_view.py:23, test.py:179-180), and `execute_order` fetches one more (src/models/order.py:140). The model gives a whole pass one price per ticker, through the parameters `market`, `quote` and `recheck`. So two orders on the same ticker in one pass always see the same price, and a price that moves during the pass is not modelled.
- PriceParsing.ParseFloat: `float()` also accepts "nan", "inf" and "infinity" in any case, surrounding whitespace and "_" between digits. None of these is modelled: such text parses to nothing, so the order is skipped. Python would instead get a NaN that never fills, or an infinity at which a sell fills.
- MD5 password hashing. The hash is a function parameter.
- Table creation, CSV-to-database migration, connections and configuration. They are I/O and setup.
- `UserDatabaseManager.write` and the `read` methods that only convert a table to a frame.
- Floating point. Prices and shares are `real`, so the equality cases of the matching rule hold exactly and not up to IEEE rounding.
- Extra columns written by `Portfolio.to_dataframe` (the metrics). Only the four stored columns are modelled.
- PortfolioModel.Position.constructor, CsvStorage.PortfolioManager.AddPosition and PortfolioModel.PortfolioService.AddPosition: the default purchase date, the clock reading taken when no date is given (src/models/portfolio.py:21, src/database/csv_manager.py:106-107, passed through at src/models/portfolio.py:125-128), is not modelled. Each of them takes the date from its caller.
- Dates are integer timestamps. Formatting them back and forth as strings is not modelled.
- Every row re-inserted by `OrderDatabaseManager.write` is modelled with one clock reading. The code reads the clock once per row.
- AppEngine.CheckOrdersDb, AppEngine.RunPass and AppEngine.CheckOrdersDbSpec: one `today` serves the whole pass, while app/app.py:252 reads `datetime.now().date()` for each executed buy. A pass that runs across midnight is not modelled.
- OrderModel.OrderService, TradingBot.TradingBotService and TradingBotView (CheckPendingOrders, Visit, SubmitOrder, SubmitFromPage): these services are composed over the CSV managers of `csv_storage.dfy` only. `StorageFactory` picks the SQL managers instead when `STORAGE_TYPE` is "database" (src/database/storage_factory.py:21-42, src/config/settings.py:29). With that backend, `execute_order` and `cancel_order` save through `OrderDatabaseManager.write`, which re-inserts every row as pending, so an executed order fires again on every later pass. The SQL managers are modelled on their own in `db_storage.dfy`, and the Findings row on src/database/db_manager.py:288-323 proves the lost status there, but no service is composed over them.
- Negative indices (Python's counting from the end) in the cancel-by-index functions. No caller passes them, and indices are `nat`.
- Chatbot.Upper, Chatbot.UpperEffect and Chatbot.ExtractTicker: only ASCII letters count as letters, and only ASCII letters are upper-cased. Python's Unicode rules for `isalpha` and `upper` are not modelled. Python's `str.upper` can lengthen a string ("ß" becomes "SS"); the model maps only a to z and keeps the length. Words are split on every character `str.isspace()` accepts.
- SQL row order is modelled as insertion order, except where an ORDER BY gives it.
- SortBy: SQLite leaves the order of rows with equal ORDER BY keys unspecified. The model keeps them in table order, a stable sort.
- test.py's throttle (test.py:562-575) is the same rule as `Throttle.SessionClock.Poll`. It is not modelled a second time.
- A missing portfolio file reads as empty in src/, where each manager creates its user's file. In test.py, another user's missing file raises.

## Findings

| source | as written | input that shows it | evidently intended | confidence | as-written member | corrected member |
|---|---|---|---|---|---|---|
| test.py:236-244 | `cancel_order(username, i)` picks the i-th of the user's orders of any status. The Buy Bot page passes the index `i` of the order in its list of pending orders (test.py:697-708). | User u has an executed order created at 1 and a pending order created at 2. The Cancel button of the pending order (i = 0) cancels the executed order, and the pending one stays pending. | Cancel the i-th order of the list the page shows, that is the user's pending orders | not executed | LegacyApp.CancelHitsWrongOrder, LegacyApp.LegacyFiles.CancelOrder | LegacyApp.CancelDisplayedEffect, LegacyApp.LegacyFiles.CancelPendingOrder |
| src/database/db_manager.py:288-323 | `OrderDatabaseManager.write` re-inserts every frame row through `add_order`, which stores status pending and a new created_at. With the SQL backend, an order that `cancel_order` or `execute_order` wrote as cancelled or executed is pending again. | A frame holding one executed order is written back as one pending order. | Store each row with its own status and created_at, so that reading gives back the frame | not executed | DbStorage.WriteLosesStatuses, DbStorage.OrderDatabaseManager.Write | DbStorage.RestoredRoundTrip, DbStorage.OrderDatabaseManager.WriteRows |
