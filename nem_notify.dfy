/**
 * The plugin's controller (class Nem_Notify): the cron run, meant to be hourly, that asks
 * the nodes for transfers newer than the stored marker, mails them to the
 * site administrator and, only once the mail is accepted, moves the marker to
 * the newest transfer; and the settings validation that stores a trimmed
 * address and clears the marker.
 *
 * The WordPress option `nem_notify_options` is the Notifier's `options` field.
 * The network, the mailer (wp_mail), the administrator's address, date() and
 * PHP's rendering of a float are parameters.
 */
module NemNotify {
  import opened Wrappers
  import opened NemApi

  /**
   * The stored options: the watched address (`nem_address`), the id of the
   * newest transfer already mailed (`last_txn_id`, None for PHP `false`), and
   * whatever other keys the array holds.
   */
  datatype Options = Options(address: string, lastTxnId: Option<int>, others: map<string, string>)

  /** A mail handed to wp_mail. */
  datatype Mail = Mail(to: string, subject: string, body: string)

  const MailHeader: string := "The following new transactions have been received:\n\n"

  /** The node list is chosen by the address's first letter: N for mainnet, anything else testnet. */
  function NetworkName(address: string): (r: string)
    ensures r == "mainnet" || r == "testnet"
    ensures r == "mainnet" <==> |address| > 0 && address[0] == 'N'
  {
    if |address| > 0 && address[0] == 'N' then "mainnet" else "testnet"
  }

  /** Mainnet addresses are looked up on the mainnet nodes, every other one on the testnet nodes. */
  lemma NodesForAddress(address: string)
    ensures |address| > 0 && address[0] == 'N' ==> ServerList(Named(NetworkName(address))) == MainnetServers
    ensures !(|address| > 0 && address[0] == 'N') ==> ServerList(Named(NetworkName(address))) == TestnetServers
  {
  }

  const SubjectPrefix: string := "New NEM Transactions for: "
  const DateLabel: string := "Date: "
  const AmountLabel: string := "Amount: "

  /** The subject: the fixed text with the watched address filled in for %s. */
  function Subject(address: string): (r: string)
    ensures |r| == |SubjectPrefix| + |address|
    ensures r[..|SubjectPrefix|] == SubjectPrefix && r[|SubjectPrefix|..] == address
  {
    SubjectPrefix + address
  }

  /**
   * One transfer's line of the mail: its date, then its amount in XEM, then a
   * line break.
   */
  function TxnLine(t: Txn, date: int -> string, num: real -> string): (r: string)
    ensures r != [] && r[|r| - 1] == '\n'
  {
    DateLabel + date(TransactionTime(t)) + " " + AmountLabel + num(TransactionAmount(t)) + "\n"
  }

  /** A line starts with the date label and the date, and ends with the amount and a line break. */
  lemma TxnLineLayout(t: Txn, date: int -> string, num: real -> string)
    ensures var r, d, n := TxnLine(t, date, num), date(TransactionTime(t)), num(TransactionAmount(t));
      && |r| == |DateLabel| + |d| + 1 + |AmountLabel| + |n| + 1
      && r[..|DateLabel|] == DateLabel && r[|DateLabel|..|DateLabel| + |d|] == d
      && r[|DateLabel| + |d|..|DateLabel| + |d| + 1 + |AmountLabel|] == " " + AmountLabel
      && r[|r| - 1 - |n|..|r| - 1] == n
  {
    var d, n := date(TransactionTime(t)), num(TransactionAmount(t));
    var front := DateLabel + d;
    var back := n + "\n";
    var r := TxnLine(t, date, num);
    assert r == front + (" " + AmountLabel) + back;
    assert r[..|DateLabel|] == front[..|DateLabel|];
    assert r[|DateLabel|..|DateLabel| + |d|] == front[|DateLabel|..];
    assert r[|DateLabel| + |d|..|DateLabel| + |d| + 1 + |AmountLabel|] == " " + AmountLabel;
    assert r[|r| - 1 - |n|..|r| - 1] == back[..|n|];
  }

  /** The lines of the mail, one per transfer, in the order given. */
  function Lines(txns: seq<Txn>, date: int -> string, num: real -> string): (r: string)
    ensures |r| >= |txns|
  {
    if txns == [] then "" else TxnLine(txns[0], date, num) + Lines(txns[1..], date, num)
  }

  /** The body of the mail: the header, then the lines. */
  function MailBody(txns: seq<Txn>, date: int -> string, num: real -> string): (r: string)
    ensures |r| >= |MailHeader| && r[..|MailHeader|] == MailHeader
    ensures r[|MailHeader|..] == Lines(txns, date, num)
  {
    MailHeader + Lines(txns, date, num)
  }

  /** The lines are empty exactly when there are no transfers, and otherwise end in a line break. */
  lemma {:induction false} LinesShape(txns: seq<Txn>, date: int -> string, num: real -> string)
    ensures Lines(txns, date, num) == [] <==> txns == []
    ensures txns != [] ==> var r := Lines(txns, date, num); r[|r| - 1] == '\n'
    decreases |txns|
  {
    if txns != [] {
      var line, rest := TxnLine(txns[0], date, num), Lines(txns[1..], date, num);
      LinesShape(txns[1..], date, num);
      assert Lines(txns, date, num) == line + rest;
      if rest != [] {
        assert (line + rest)[|line + rest| - 1] == rest[|rest| - 1];
      }
    }
  }

  /** The lines of two runs of transfers are the lines of each, one after the other. */
  lemma {:induction false} LinesAppend(a: seq<Txn>, b: seq<Txn>, date: int -> string, num: real -> string)
    ensures Lines(a + b, date, num) == Lines(a, date, num) + Lines(b, date, num)
    decreases |a|
  {
    if a == [] {
      assert a + b == b;
    } else {
      var line := TxnLine(a[0], date, num);
      calc {
        Lines(a + b, date, num);
      == { assert (a + b)[0] == a[0]; assert (a + b)[1..] == a[1..] + b; }
        line + Lines(a[1..] + b, date, num);
      == { LinesAppend(a[1..], b, date, num); }
        line + (Lines(a[1..], date, num) + Lines(b, date, num));
      ==
        (line + Lines(a[1..], date, num)) + Lines(b, date, num);
      }
    }
  }

  /** Extending a run of transfers by one adds that transfer's line at the end. */
  lemma LinesSnoc(txns: seq<Txn>, i: nat, date: int -> string, num: real -> string)
    requires i < |txns|
    ensures Lines(txns[..i + 1], date, num) == Lines(txns[..i], date, num) + TxnLine(txns[i], date, num)
  {
    assert txns[..i] + [txns[i]] == txns[..i + 1];
    LinesAppend(txns[..i], [txns[i]], date, num);
    assert Lines([txns[i]], date, num) == TxnLine(txns[i], date, num) + Lines([], date, num);
  }

  /** The number of line breaks in a string. */
  function Newlines(s: string): nat
  {
    multiset(s)['\n']
  }

  /**
   * When dates and amounts render without line breaks, the mail has exactly
   * one line per transfer under its header.
   */
  lemma {:induction false} OneLinePerTransfer(txns: seq<Txn>, date: int -> string, num: real -> string)
    requires forall t :: '\n' !in date(t)
    requires forall x :: '\n' !in num(x)
    ensures Newlines(Lines(txns, date, num)) == |txns|
    decreases |txns|
  {
    if txns != [] {
      OneLinePerTransfer(txns[1..], date, num);
      OneNewlinePerLine(txns[0], date, num);
      var line, rest := TxnLine(txns[0], date, num), Lines(txns[1..], date, num);
      assert multiset(line + rest) == multiset(line) + multiset(rest);
    }
  }

  /** A transfer's line ends in the only line break it holds. */
  lemma OneNewlinePerLine(t: Txn, date: int -> string, num: real -> string)
    requires '\n' !in date(TransactionTime(t))
    requires '\n' !in num(TransactionAmount(t))
    ensures Newlines(TxnLine(t, date, num)) == 1
  {
    var d, n := date(TransactionTime(t)), num(TransactionAmount(t));
    var a := DateLabel + d;
    var b := a + " ";
    var c := b + AmountLabel;
    var e := c + n;
    assert TxnLine(t, date, num) == e + "\n";
    LabelNewlines();
    NoNewlines(d);
    NoNewlines(n);
    NewlinesAppend(DateLabel, d);
    NewlinesAppend(a, " ");
    NewlinesAppend(b, AmountLabel);
    NewlinesAppend(c, n);
    NewlinesAppend(e, "\n");
  }

  /** The fixed parts of a line: only its end is a line break. */
  lemma LabelNewlines()
    ensures Newlines(DateLabel) == 0 && Newlines(" ") == 0 && Newlines(AmountLabel) == 0
    ensures Newlines("\n") == 1
  {
    NoNewlines(DateLabel);
    NoNewlines(" ");
    NoNewlines(AmountLabel);
    assert multiset("\n") == multiset{'\n'};
  }

  lemma NoNewlines(s: string)
    requires '\n' !in s
    ensures Newlines(s) == 0
  {
    assert '\n' !in multiset(s);
  }

  lemma NewlinesAppend(a: string, b: string)
    ensures Newlines(a + b) == Newlines(a) + Newlines(b)
  {
    assert multiset(a + b) == multiset(a) + multiset(b);
  }

  // ---------------------------------------------------------------------------
  // trim()

  /** The characters PHP's trim() strips by default. */
  predicate IsTrimmable(c: char)
  {
    c == ' ' || c == '\t' || c == '\n' || c == '\r' || c == '\0' || c == '\U{000B}'
  }

  function TrimLeft(s: string): (r: string)
    ensures |r| <= |s| && r == s[|s| - |r|..]
    ensures forall i :: 0 <= i < |s| - |r| ==> IsTrimmable(s[i])
    ensures r != [] ==> !IsTrimmable(r[0])
  {
    if s != [] && IsTrimmable(s[0]) then TrimLeft(s[1..]) else s
  }

  function TrimRight(s: string): (r: string)
    ensures |r| <= |s| && r == s[..|r|]
    ensures forall i :: |r| <= i < |s| ==> IsTrimmable(s[i])
    ensures r != [] ==> !IsTrimmable(r[|r| - 1])
  {
    if s != [] && IsTrimmable(s[|s| - 1]) then TrimRight(s[..|s| - 1]) else s
  }

  /** trim(): the string without its leading and trailing whitespace. */
  function Trim(s: string): (r: string)
  {
    TrimRight(TrimLeft(s))
  }

  /** `r` is s[i..j], and everything of `s` outside it is whitespace. */
  predicate TrimmedSlice(s: string, i: int, j: int, r: string)
  {
    && 0 <= i <= j <= |s| && r == s[i..j]
    && (forall k :: 0 <= k < i ==> IsTrimmable(s[k]))
    && (forall k :: j <= k < |s| ==> IsTrimmable(s[k]))
  }

  /**
   * Trim keeps a contiguous part of the string and strips only whitespace
   * around it.
   */
  lemma TrimStripsOnlyEnds(s: string)
    ensures exists i, j :: TrimmedSlice(s, i, j, Trim(s))
  {
    var l := TrimLeft(s);
    var i := |s| - |l|;
    var r := TrimRight(l);
    var j := i + |r|;
    assert r == s[i..j] by {
      assert l == s[i..];
      assert r == l[..|r|];
    }
    assert forall k :: j <= k < |s| ==> IsTrimmable(s[k]) by {
      forall k | j <= k < |s| ensures IsTrimmable(s[k]) {
        assert s[k] == l[k - i];
      }
    }
    assert TrimmedSlice(s, i, j, Trim(s));
  }

  /** Trim leaves neither end of the result on whitespace. */
  lemma TrimmedEnds(s: string)
    ensures Trim(s) != [] ==> !IsTrimmable(Trim(s)[0]) && !IsTrimmable(Trim(s)[|Trim(s)| - 1])
  {
    var l := TrimLeft(s);
    var r := TrimRight(l);
    assert r == Trim(s);
    if r != [] {
      assert r == l[..|r|];
      assert r[0] == l[0];
    }
  }

  /** A string without whitespace at either end is left alone, so trimming twice is trimming once. */
  lemma TrimIdempotent(s: string)
    ensures Trim(Trim(s)) == Trim(s)
  {
    var r := Trim(s);
    TrimmedEnds(s);
    assert TrimLeft(r) == r;
    assert TrimRight(r) == r;
  }

  // ---------------------------------------------------------------------------
  // The cron run

  /** The marker the run reads the history down to. */
  function MarkerOf(options: Options): nat
  {
    AbsInt(options.lastTxnId)
  }

  /** The page oracle the run walks: the nodes chosen by the address, asked about that address. */
  function RunPages(options: Options, net: Network): PageOracle
  {
    Pages(ServerList(Named(NetworkName(options.address))), net, options.address)
  }

  /** The loop of cron_run that writes one line per transfer under the header. */
  method ComposeBody(txns: seq<Txn>, date: int -> string, num: real -> string) returns (body: string)
    ensures body == MailBody(txns, date, num)
  {
    body := MailHeader;
    for i := 0 to |txns|
      invariant body == MailHeader + Lines(txns[..i], date, num)
    {
      var line := TxnLine(txns[i], date, num);
      LinesSnoc(txns, i, date, num);
      body := body + line;
    }
    assert txns[..|txns|] == txns;
  }

  class Notifier {
    var options: Options

    constructor (stored: Options)
      ensures options == stored
    {
      options := stored;
    }

    /**
     * validate_settings: the options to store for a submitted address. The
     * address is trimmed, the marker is cleared so the next run reports the
     * whole history again, and every other key is kept.
     */
    method ValidateSettings(input: string) returns (r: Options)
      ensures r.address == Trim(input)
      ensures r.lastTxnId.None?
      ensures r.others == options.others
    {
      r := options;
      r := r.(address := Trim(input));
      r := r.(lastTxnId := None);
    }

    /**
     * cron_run: fetch the transfers newer than the marker; if there are any,
     * mail them, newest first, and advance the marker to the newest one only
     * when the mailer accepts the mail. A refused mail leaves the marker, so
     * the same transfers are reported again by the next run.
     */
    method CronRun(net: Network, send: Mail -> bool, adminEmail: string, date: int -> string, num: real -> string)
      returns (mail: Option<Mail>)
      requires OlderThanCursor(RunPages(options, net))
      modifies this`options
      ensures var txns := Walk(RunPages(old(options), net), MarkerOf(old(options)), None);
        && (txns == [] ==> mail.None?)
        && (txns != [] ==> mail == Some(Mail(adminEmail, Subject(old(options).address), MailBody(txns, date, num))))
        && (txns != [] && send(mail.value) ==> options == old(options).(lastTxnId := Some(txns[0].id)))
        && (txns == [] || !send(mail.value) ==> options == old(options))
      ensures options.lastTxnId != old(options.lastTxnId) ==> options.lastTxnId.value > MarkerOf(old(options))
    {
      var address := options.address;
      var network := NetworkName(address);
      var api := new Api(Named(network));
      var txns := api.GetTransactionsSince(address, options.lastTxnId, net);
      if txns == [] {
        return None;
      }
      var body := ComposeBody(txns, date, num);
      var m := Mail(adminEmail, Subject(address), body);
      mail := Some(m);
      if send(m) {
        WalkBounds(RunPages(options, net), MarkerOf(options), None);
        assert txns[0] in txns;
        options := options.(lastTxnId := Some(TransactionId(txns[0])));
      }
    }
  }

  /**
   * The marker only moves forward: over nodes that serve each account's
   * history newest first, the id stored after a mailed run is the newest
   * transfer mailed, above every other one mailed and above the old marker.
   */
  lemma MarkerIsNewestMailed(look: PageOracle, marker: nat)
    requires OlderThanCursor(look)
    requires forall c :: look(c).Some? ==> Descending(look(c).value)
    requires Walk(look, marker, None) != []
    ensures var txns := Walk(look, marker, None);
      txns[0].id > marker && forall i :: 0 < i < |txns| ==> txns[i].id < txns[0].id
  {
    WalkNewestFirst(look, marker, None);
    WalkBounds(look, marker, None);
    assert Walk(look, marker, None)[0] in Walk(look, marker, None);
  }
}
