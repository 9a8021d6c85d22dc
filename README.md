# WP-NEM-Notify in Dafny

A model of the transaction-polling path of the WordPress plugin WP-NEM-Notify. The plugin is meant
to run once an hour. Each run asks a NEM NIS node for the incoming transfers of one account. It mails the transfers it
has not reported yet to the site administrator, then moves its stored marker forward. (As written,
the scheduler never starts that run; see "## Left out".)

The project is organised as follows:

- `wrappers.dfy` (module `Wrappers`): the `Option` type. It stands for PHP's `false` meaning
  "nothing".
- `nem_api.dfy` (module `NemApi`): the model of `lib/class-nem-api.php`.
  - Class `Api` has the fields `servers` and `transactions`.
  - Its constructor selects the node list.
  - `LookupTransactions` asks the nodes in order and decodes the page of the first one whose
    response object reports status 200. That status is not the node's HTTP status. WordPress's
    `rest_ensure_response` wraps every reply that is not a transport error in a response object
    whose status is 200. So in practice any node that answers at all is taken, even with HTTP
    500. The client moves on to the next node only after a transport error
    (`FailoverOnlyOnTransportError`).
  - `GetTransactionsSince` walks backwards page by page: a `while` loop in `WalkBack`, whose body
    is `FetchPage`, which in turn calls `AppendAboveMarker` for the inner `foreach`.
  - Each method is proved against a specification function: `PageLookup`, `FirstAtOrBelow` and
    `Walk`.
  - The lemmas about `Walk` give the bounds, the order, the exclusive marker and fail-soft
    behaviour. `Requests` lists the cursors the walk asks for.
  - The accessors give the time and amount of a transfer.
  - The network is a total function from a `Request` (node, address without dashes, cursor) to a
    `Response`. `Url` renders a request. For one node and address, `UrlInjective` shows that
    distinct non-negative cursors give distinct URLs. NIS ids are never negative. For a non-empty
    address made of URL-safe characters (NEM addresses use only A-Z and 2-7), the model's URL is
    the one PHP requests. So for such addresses nothing is lost by keying the network on requests.
    For negative cursors, an empty address or other characters, see "## Left out".
- `reconciliation.dfy` (module `Reconciliation`): what the walk achieves against nodes that
  serve an account's history faithfully (`HistoryNet`).
  - It returns exactly the transfers above the marker, newest first.
  - It makes |those| / 25 + 1 lookups.
  - A run whose marker is the newest id of the previous run returns exactly the transfers that
    arrived since (`NextRunReturnsOnlyNew`). This assumes the previous run saw the whole history
    above its marker.
  - That assumption can fail. If a lookup fails after a full page, the run mails only that page.
    Once the mail is accepted, the marker moves to the page's newest id. Transfers above the old
    marker but older than the page are then never reported (`FailedLookupLosesOlder`).
- `nem_notify.dfy` (module `NemNotify`): the model of `lib/class-nem-notify.php`.
  - Class `Notifier` holds the stored option array `nem_notify_options` as its field `options`.
  - `CronRun` is `cron_run`. It selects the network by the address's first letter, walks the
    history and builds the mail (`ComposeBody`). It updates the marker only when the mailer
    accepts the mail.
  - `ValidateSettings` is `validate_settings`, with PHP's `trim` (`Trim`).
- `autoloader.dfy` (module `Autoloader`): the class autoloader that both entry files register.
  Their two copies (`nem-notify.php:24-32` and `nem-payment-notification.php:23-31`) are
  identical, so it is modelled once.
- `nem_notify_entry.dfy` and `payment_notification_entry.dfy`: the class names each entry file
  hooks and instantiates, and whether the autoloader finds their files.

## Model

| member | source | states |
|---|---|---|
| NemApi.ServerList | lib/class-nem-api.php:36-44 | a non-empty list argument becomes the node list; the name "mainnet" keeps the mainnet nodes; anything else selects the testnet nodes; the list is never empty |
| NemApi.Api.constructor | lib/class-nem-api.php:36-44 | the object's node list is ServerList of the argument and its collected transactions are empty |
| NemApi.StripDashes | lib/class-nem-api.php:100 | no dash remains; an address without dashes is unchanged |
| NemApi.StripDashesKeepsOthers | lib/class-nem-api.php:100 | every character other than a dash keeps its count |
| NemApi.StripDashesChar | lib/class-nem-api.php:100 | a single dash is removed, any other single character is kept |
| NemApi.StripDashesAppend | lib/class-nem-api.php:100 | stripping a concatenation strips each part and keeps them in order; with StripDashesChar this fixes the result character by character |
| NemApi.CursorArg | lib/class-nem-api.php:102 | empty exactly when there is no cursor; otherwise `&id=` followed by the cursor written in decimal |
| NemApi.RequestPath | lib/class-nem-api.php:100-102 | the endpoint path, then the address without dashes, then the cursor argument |
| NemApi.Url | lib/class-nem-api.php:106 | `http://`, then the node's host name, then the endpoint path, the address and the cursor argument |
| NemApi.ParseNatToString | lib/class-nem-api.php:102 | the decimal rendering of a cursor reads back as the same number |
| NemApi.CursorArgInjective | lib/class-nem-api.php:102 | the `id` argument, present only for a cursor, determines a non-negative cursor |
| NemApi.RequestPathInjective | lib/class-nem-api.php:100-102 | two non-negative cursors give the same path only if they are equal |
| NemApi.RequestPathHasNoDash | lib/class-nem-api.php:100-102 | the request path contains no dash |
| NemApi.UrlOfRequest | lib/class-nem-api.php:101-106 | the URL of a request is `http://`, the node, then the path |
| NemApi.UrlInjective | lib/class-nem-api.php:100-106 | for one node and address, two non-negative cursors give the same URL only if they are equal |
| NemApi.FirstAnswering | lib/class-nem-api.php:105-111 | the index found answers 200 and no earlier node does; None exactly when no node answers 200 |
| NemApi.FailoverOnlyOnTransportError | lib/class-nem-api.php:105-111 | when every HTTP answer reports status 200, a node is taken exactly when some node answered over HTTP, and every node before it had a transport error |
| NemApi.DecodePage | lib/class-nem-api.php:120-125 | a page exactly when the body is an object with a non-empty `data` list, and then that list |
| NemApi.PageLookup | lib/class-nem-api.php:96-126 | a page is never empty; a page is reported only if some node answered 200; an empty node list fails |
| NemApi.PageLookupUsesFirstAnswer | lib/class-nem-api.php:105-124 | the page is the decoded body of the first node answering 200, whatever later nodes would answer |
| NemApi.PageLookupFailsWithoutAnswer | lib/class-nem-api.php:105-117 | when no node answers 200 the lookup fails |
| NemApi.Api.LookupTransactions | lib/class-nem-api.php:96-126 | the loop with early break over the nodes returns PageLookup of the node list, address and cursor |
| NemApi.AbsInt | lib/class-nem-api.php:59 | `false` reads as 0, a number as its absolute value |
| NemApi.FirstAtOrBelow | lib/class-nem-api.php:74-79 | every id before the index is above the marker, and the id at it (if any) is at or below it |
| NemApi.Api.AppendAboveMarker | lib/class-nem-api.php:74-82 | appends the page's transactions up to the first at or below the marker and returns where it stopped |
| NemApi.Api.FetchPage | lib/class-nem-api.php:69-82 | one pass appends what Walk collects from the cursor; it either ends the walk or moves to the last id of a full page, below the old cursor and above the marker |
| NemApi.Api.WalkBack | lib/class-nem-api.php:60-86 | the loop leaves in `transactions`, and returns, exactly Walk from no cursor |
| NemApi.Api.GetTransactionsSince | lib/class-nem-api.php:56-87 | the list is reset, then holds and returns Walk of the client's pages down to absint(marker) |
| NemApi.Walk | lib/class-nem-api.php:66-83 | a failed first lookup returns nothing; otherwise the result starts with the first page's transfers up to the first id at or below the marker |
| NemApi.Requests | lib/class-nem-api.php:66-75 | the first lookup is made with the caller's cursor |
| NemApi.WalkBounds | lib/class-nem-api.php:74-81 | every returned transaction is above the marker and below the starting cursor |
| NemApi.WalkNewestFirst | lib/class-nem-api.php:74-82 | when the nodes answer newest first, so does the result |
| NemApi.RequestsFollowFullPages | lib/class-nem-api.php:66-75 | the first lookup uses the caller's cursor; each later one follows a page of exactly 25 transactions, all above the marker, with the id of its last one |
| NemApi.WalkFailSoft | lib/class-nem-api.php:69-86 | a failed lookup after a full page ends the walk with what was collected |
| NemApi.WalkStopsAtMarker | lib/class-nem-api.php:75-79 | at the first id at or below the marker the walk returns the transactions before it and makes no further lookup |
| NemApi.TransactionId | lib/class-nem-api.php:132-135 | the transfer's id (`meta->id`), which the marker stores |
| NemApi.TransactionTime | lib/class-nem-api.php:141-145 | Unix time minus the genesis offset 1427587585 is the NIS time stamp |
| NemApi.TransactionAmount | lib/class-nem-api.php:151-154 | the amount times 1000000 is the amount in micro-units |
| Reconciliation.HistoryNetServes | lib/class-nem-api.php:96-126 | over nodes that all serve the history, the client's page at every cursor is the history's page |
| Reconciliation.ServesOlderThanCursor | lib/class-nem-api.php:66-70 | pages served from a history honour the cursor, so the walk ends |
| Reconciliation.WalkFromPosition | lib/class-nem-api.php:66-83 | from the cursor at any position, the walk returns the rest of the history above the marker |
| Reconciliation.RequestsFromPosition | lib/class-nem-api.php:61-73 | from the cursor at any position, the walk makes (rest above the marker) / 25 + 1 lookups |
| Reconciliation.WalkReturnsAboveMarker | lib/class-nem-api.php:56-87 | against a newest-first history the walk returns exactly the transfers above the marker, in order, with that many / 25 + 1 lookups |
| Reconciliation.ClientWalkReturnsAboveMarker | lib/class-nem-api.php:56-87 | the same for the client over any non-empty node list, with the marker read through absint |
| Reconciliation.FirstRunReturnsAll | lib/class-nem-api.php:56-62 | with no stored marker and positive ids, the whole history is returned |
| Reconciliation.NextRunReturnsOnlyNew | lib/class-nem-notify.php:71-73 | once the newest id of a run is stored, the next run returns exactly the transfers that arrived since: none missed, none repeated (when the earlier run saw the whole history above its marker) |
| Reconciliation.FailedLookupLosesOlder | lib/class-nem-api.php:66-86 | a lookup that fails after a full page returns just that page; a transfer above the old marker but older than the page is in neither that run nor any run whose marker is the page's newest id |
| NemNotify.NetworkName | lib/class-nem-notify.php:55 | "mainnet" exactly when the address starts with N, otherwise "testnet" |
| NemNotify.NodesForAddress | lib/class-nem-notify.php:55-56 | an address starting with N is looked up on the mainnet nodes, any other on the testnet nodes |
| NemNotify.Subject | lib/class-nem-notify.php:63 | the fixed subject text followed by the watched address |
| NemNotify.TxnLine | lib/class-nem-notify.php:66-67 | a transfer's line is non-empty and ends in a line break |
| NemNotify.TxnLineLayout | lib/class-nem-notify.php:66-67 | a line is `Date: `, the rendered date, ` Amount: `, the rendered amount and a line break, each at its place |
| NemNotify.Lines | lib/class-nem-notify.php:65-68 | at least one character per transfer |
| NemNotify.LinesShape | lib/class-nem-notify.php:65-68 | the lines are empty exactly when there are no transfers, and otherwise end in a line break |
| NemNotify.MailBody | lib/class-nem-notify.php:64-68 | the header, then the lines of the transfers |
| NemNotify.LinesAppend | lib/class-nem-notify.php:65-68 | the mail lines of two runs of transfers are the lines of each, in order |
| NemNotify.OneNewlinePerLine | lib/class-nem-notify.php:66-67 | a transfer's line holds exactly one line break when its date and amount hold none |
| NemNotify.OneLinePerTransfer | lib/class-nem-notify.php:64-68 | the lines under the header hold exactly one line break per transfer |
| NemNotify.LinesSnoc | lib/class-nem-notify.php:65-68 | one more transfer adds its line at the end |
| NemNotify.ComposeBody | lib/class-nem-notify.php:64-68 | the loop builds the header followed by one line per transfer, in the order returned |
| NemNotify.TrimLeft | lib/class-nem-notify.php:139 | a suffix of the input; everything dropped is whitespace; it does not start with whitespace |
| NemNotify.TrimRight | lib/class-nem-notify.php:139 | a prefix of the input; everything dropped is whitespace; it does not end with whitespace |
| NemNotify.TrimStripsOnlyEnds | lib/class-nem-notify.php:139 | trim keeps a contiguous slice and drops only whitespace around it |
| NemNotify.TrimmedEnds | lib/class-nem-notify.php:139 | a non-empty trimmed address neither starts nor ends with whitespace |
| NemNotify.TrimIdempotent | lib/class-nem-notify.php:139 | trimming twice is trimming once |
| NemNotify.Notifier.ValidateSettings | lib/class-nem-notify.php:136-142 | the stored address is the trimmed input, the marker is cleared, every other key is kept |
| NemNotify.Notifier.CronRun | lib/class-nem-notify.php:47-77 | no transfers: no mail, options unchanged; otherwise a mail to the administrator with the subject naming the address and one line per transfer; the marker becomes the newest id only if the mail is accepted, and then it exceeds the old marker |
| NemNotify.MarkerIsNewestMailed | lib/class-nem-notify.php:72 | the stored id is that of the newest transfer mailed, above the old marker and every other transfer mailed |
| Autoloader.LowerAscii | nem-notify.php:26 | upper-case ASCII letters are lowered, every other character is kept |
| Autoloader.StemChar | nem-notify.php:26 | '_' becomes '-', every other character is lowered; never '_' or upper case |
| Autoloader.FileStem | nem-notify.php:26 | same length as the class name, each character mapped by StemChar |
| Autoloader.StemFile | nem-notify.php:27 | `class-`, the stem, `.php`: ten characters more than the stem |
| Autoloader.ClassFileName | nem-notify.php:26-27 | ten characters longer than the class name, with the folded name between `class-` and `.php` |
| Autoloader.ClassFilePath | nem-notify.php:28 | the plugin path, `/lib/`, then the file name |
| Autoloader.Autoload | nem-notify.php:24-32 | the class file's path exactly when that file exists, else nothing |
| Autoloader.StemIsFolded | nem-notify.php:26 | the stem holds no underscore and no upper-case letter |
| Autoloader.StemIdempotent | nem-payment-notification.php:25 | folding a folded stem changes nothing |
| Autoloader.SameFileIffSameStem | nem-notify.php:26-27 | two classes share a file exactly when their folded names agree |
| Autoloader.CaseInsensitive | nem-notify.php:26 | names that differ only in letter case share a file |
| Autoloader.NemNotifyFile | nem-notify.php:26-28 | Nem_Notify maps to class-nem-notify.php |
| Autoloader.NemApiFile | nem-notify.php:26-28 | Nem_Api maps to class-nem-api.php |
| NemNotifyEntry.ClassesResolve | nem-notify.php:35-37 | the hooked class, the instantiated class and Nem_Api all load from files under lib/ |
| PaymentNotificationEntry.HookClassAsWrittenNotFound | nem-payment-notification.php:34-35 | the hooked class NemNotify maps to class-nemnotify.php, which does not exist, so nothing loads |
| PaymentNotificationEntry.HookClassResolves | nem-payment-notification.php:34-36 | with the name corrected, the hooks load the same file as the instance created on line 36 |

## Findings

| source | as written | input that shows it | evidently intended | confidence | as-written member | corrected member |
|---|---|---|---|---|---|---|
| nem-payment-notification.php:34-35 | activation and deactivation hooks name class `NemNotify` | activating the plugin through this file: the autoloader looks for lib/class-nemnotify.php, which does not exist, so `NemNotify::activate` cannot be called and the hourly run is never scheduled | `Nem_Notify`, the class instantiated on line 36 and defined in lib/class-nem-notify.php | high; not executed | PaymentNotificationEntry.HookClassAsWrittenNotFound | PaymentNotificationEntry.HookClassResolves |

## Left out

- NemApi.Api.GetTransactionsSince: requires `OlderThanCursor`, meaning every node answers only transfers older than the cursor. The PHP loop has no cap on the number of pages. Against a node that ignores the cursor and keeps returning the same full page, it never ends. The model does not describe that run.
- NemApi.Api.GetTransactionsSince: does not return a log of its lookups. `Requests` lists the cursors by following the same recursion as `Walk`. Its properties (`RequestsFollowFullPages`, `RequestsFromPosition`) are proved about that function, not about the loop.
- NemApi.RequestPath, NemApi.Url: the query is rendered by concatenation. WordPress's add_query_arg (lib/class-nem-api.php:102) parses the query again and re-encodes its values. It also drops the `=` of an empty value. So for an empty address PHP requests `…?address` and `…?address&id=N`, where the model gives `…?address=` and `…?address=&id=N`. Addresses with a space, `+`, `&`, `#` or `%` are re-encoded, and two of them can be sent as the same URL (`A B` and `A+B`). None of this is modelled. NEM addresses (A-Z and 2-7, dashes stripped) are unaffected. add_query_arg is not part of this model.
- NemApi.TransactionAmount: exact division. PHP returns a float, and its rounding is not modelled.
- NemApi.ServerList: the argument is either a network name or a node list. PHP's loose comparison `'mainnet' != $servers` for other argument types is not modelled.
- HTTP: wp_remote_get, rest_ensure_response and json_decode are collapsed into `Response` and `Body`. `Http`'s status is what the response object reports, not the node's HTTP status. rest_ensure_response sets it to 200 for every reply that is not a transport error. `Body.NotAnObject` covers invalid JSON and JSON that is not an object. The WordPress functions themselves are not part of this model.
- NemNotify.OneLinePerTransfer: counts the line breaks of the transfer lines only, not the two that end the header.
- NemNotify.NetworkName: reading `$address[0]` of an empty address is taken as "not N". PHP returns an empty string here with a notice.
- NemNotify.Notifier.ValidateSettings: takes the submitted address as a string. A submitted array without `nem_address` is not modelled.
- Parameters stand in for the host:
  - date() formatting: depends on the time zone.
  - PHP's float-to-string rendering.
  - wp_mail: the `send` function.
  - get_option('admin_email').
  - The network: a function.
- get_option and update_option of `nem_notify_options` are the `options` field.
- Autoloader.LowerAscii: lowers ASCII letters only. Older PHP versions follow the locale in strtolower.
- file_exists is membership in a set of paths. What require then loads is not modelled.
- WordPress plumbing:
  - add_action, the admin menu and the settings page (lib/class-nem-notify.php:82-131).
  - Cron scheduling on activation and deactivation (lib/class-nem-notify.php:26-42). The hook it schedules, `nempn_cron_event` (lines 29-30), differs from the hook `cron_run` listens on, `nempn_cron_events` (line 16). So the scheduled event has no listener, and as written `cron_run` never runs from the scheduler. `CronRun` models what one run does when something does call it.
  - The direct-access guards and the constant definitions of both entry files.
- Debug output (`$debug` and error_log), the translation wrapper `__()`, and the unused `$txn_types` array (lib/class-nem-api.php:25-29).
