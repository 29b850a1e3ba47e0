/** `dnd.server.config.BankConfig`: the webhook's HMAC secret and the bank
    accounts payments go to. The loaded `bank.properties` file, the process
    environment variable `HMAC_SECRET` and the JVM system properties are
    parameters. */
module BankConfig {
  import opened Wrappers
  import Text

  datatype BankAccount = BankAccount(number: string, name: string)

  /** The two accounts used when the properties name none. */
  const DefaultAccounts: seq<BankAccount> := [
    BankAccount("181816092003", "NGUYEN DUC DUY"),
    BankAccount("0386278203", "TRAN VAN THUY")]

  type Properties = map<string, string>

  const SecretKey: string := "bank.hmac.secret"
  const SecretSysKey: string := "hmac.secret"

  /** `getProperty(key, default)`. */
  function Get(props: Properties, key: string, default: string): string {
    if key in props then props[key] else default
  }

  /** The HMAC secret: the property when it is non-empty; otherwise the
      environment variable whenever it is set, even to the empty string;
      otherwise the system property, or "". */
  function Secret(props: Properties, env: Option<string>, sysProps: Properties): (s: string)
    ensures Get(props, SecretKey, "") != "" ==> s == props[SecretKey]
    ensures Get(props, SecretKey, "") == "" && env.Some? ==> s == env.value
    ensures Get(props, SecretKey, "") == "" && env.None? ==> s == Get(sysProps, SecretSysKey, "")
  {
    var fromFile := Get(props, SecretKey, "");
    if fromFile != "" then fromFile
    else if env.Some? then env.value
    else Get(sysProps, SecretSysKey, "")
  }

  function NumberKey(i: nat): string { "bank.account." + Text.DecimalOf(i) + ".number" }

  function NameKey(i: nat): string { "bank.account." + Text.DecimalOf(i) + ".name" }

  /** Account `i` is read: both its number and its name are present and non-empty. */
  predicate Present(props: Properties, i: nat) {
    NumberKey(i) in props && props[NumberKey(i)] != "" && NameKey(i) in props && props[NameKey(i)] != ""
  }

  /** Account `i` as stored: both values trimmed. */
  function AccountAt(props: Properties, i: nat): BankAccount
    requires Present(props, i)
  {
    BankAccount(Text.Trim(props[NumberKey(i)]), Text.Trim(props[NameKey(i)]))
  }

  /** `read` is what the loop over indices 1, 2, ... collects: one account per
      present index, in order, up to the first index that is not present. */
  predicate IsAccountRun(props: Properties, read: seq<BankAccount>) {
    && (forall i :: 1 <= i <= |read| ==> Present(props, i) && read[i - 1] == AccountAt(props, i))
    && !Present(props, |read| + 1)
  }

  /** The account list configured by `props`: the run, or the two defaults
      when it is empty. */
  ghost predicate IsConfiguredAccounts(props: Properties, accounts: seq<BankAccount>) {
    exists read :: IsAccountRun(props, read) && accounts == (if read == [] then DefaultAccounts else read)
  }

  class Config {
    var hmacSecret: string
    var accounts: seq<BankAccount>

    /** The account list is never empty. */
    predicate Valid()
      reads this
    {
      |accounts| > 0
    }

    /** `new BankConfig()`, i.e. `loadProperties()` on the loaded properties
      (empty when no file was found). */
    constructor(props: Properties, env: Option<string>, sysProps: Properties)
      ensures Valid()
      ensures hmacSecret == Secret(props, env, sysProps)
      ensures IsConfiguredAccounts(props, accounts)
    {
      hmacSecret := Secret(props, env, sysProps);
      var read := ReadAccounts(props);
      accounts := if read == [] then DefaultAccounts else read;
    }

    /** `getHmacSecret()`. */
    function HmacSecret(): string
      reads this
    {
      hmacSecret
    }

    /** `getAccounts()`: a copy of the list, which is never empty. */
    method GetAccounts() returns (r: seq<BankAccount>)
      requires Valid()
      ensures r == accounts && |r| > 0
    {
      r := accounts;
    }
  }

  /** Account `i` when it is present. */
  function Entry(props: Properties, i: nat): (e: Option<BankAccount>)
    ensures e.Some? <==> Present(props, i)
    ensures e.Some? ==> e.value == AccountAt(props, i)
  {
    if Present(props, i) then Some(AccountAt(props, i)) else None
  }

  /** The entries of the properties, index by index. */
  function Entries(props: Properties): nat -> Option<BankAccount> {
    (i: nat) => Entry(props, i)
  }

  /** The loop of `loadProperties` over `bank.account.<i>.number` and
      `bank.account.<i>.name`, from `i = 1` until the first index that is
      missing or empty. */
  method ReadAccounts(props: Properties) returns (read: seq<BankAccount>)
    ensures IsAccountRun(props, read)
  {
    ghost var entries := Entries(props);
    read := [];
    var i := 1;
    while Present(props, i)
      invariant i == |read| + 1
      invariant IsRunPrefix(entries, read)
      decreases |props.Keys| - |read|
    {
      var acc := AccountAt(props, i);
      assert entries(i) == Some(acc);
      RunPrefixExtends(entries, read, acc);
      RunPrefixBounded(props, read);
      read := read + [acc];
      i := i + 1;
    }
    RunPrefixIsRun(props, read);
  }

  /** `read` holds entries 1..|read| of `entries`, all present, in order. */
  ghost predicate IsRunPrefix(entries: nat -> Option<BankAccount>, read: seq<BankAccount>) {
    forall i :: 1 <= i <= |read| ==> entries(i) == Some(read[i - 1])
  }

  /** One more present entry extends the run. */
  lemma RunPrefixExtends(entries: nat -> Option<BankAccount>, read: seq<BankAccount>, acc: BankAccount)
    requires IsRunPrefix(entries, read) && entries(|read| + 1) == Some(acc)
    ensures IsRunPrefix(entries, read + [acc])
  {
    var next := read + [acc];
    forall i | 1 <= i <= |next| ensures entries(i) == Some(next[i - 1]) {
      if i <= |read| {
        assert next[i - 1] == read[i - 1];
      }
    }
  }

  /** A run of the properties' entries is a run of accounts, and it is
      complete once the next index is not present. */
  lemma RunPrefixIsRun(props: Properties, read: seq<BankAccount>)
    requires IsRunPrefix(Entries(props), read) && !Present(props, |read| + 1)
    ensures IsAccountRun(props, read)
  {
    forall i | 1 <= i <= |read| ensures Present(props, i) && read[i - 1] == AccountAt(props, i) {
      assert Entries(props)(i) == Some(read[i - 1]);
    }
  }

  /** A run followed by one more present index has no more accounts than
      the properties have keys. */
  lemma RunPrefixBounded(props: Properties, read: seq<BankAccount>)
    requires IsRunPrefix(Entries(props), read) && Present(props, |read| + 1)
    ensures |read| + 1 <= |props.Keys|
  {
    forall j | 1 <= j <= |read| + 1 ensures Present(props, j) {
      if j <= |read| {
        assert Entries(props)(j) == Some(read[j - 1]);
      }
    }
    NumberKeysCounted(props, |read| + 1);
  }

  // ---------------------------------------------------------------------------
  // Laws

  lemma {:induction false} NatDecimalInjective(m: nat, n: nat)
    requires Text.NatDecimal(m) == Text.NatDecimal(n)
    ensures m == n
  {
    Text.DigitsValueOfNatDecimal(m);
    Text.DigitsValueOfNatDecimal(n);
  }

  /** Distinct indices have distinct keys. */
  lemma NumberKeyInjective(m: nat, n: nat)
    requires NumberKey(m) == NumberKey(n)
    ensures m == n
  {
    var p := "bank.account.";
    var dm, dn := Text.DecimalOf(m), Text.DecimalOf(n);
    assert |dm| == |dn|;
    assert dm == NumberKey(m)[|p|..|p| + |dm|];
    assert dn == NumberKey(n)[|p|..|p| + |dn|];
    NatDecimalInjective(m, n);
  }

  /** The keys of indices 1..n are n distinct strings. */
  lemma {:induction false} NumberKeysCount(n: nat)
    ensures |set j | 1 <= j <= n :: NumberKey(j)| == n
  {
    if n > 0 {
      var before := set j | 1 <= j <= n - 1 :: NumberKey(j);
      NumberKeysCount(n - 1);
      assert (set j | 1 <= j <= n :: NumberKey(j)) == before + {NumberKey(n)};
      if NumberKey(n) in before {
        var j :| 1 <= j <= n - 1 && NumberKey(j) == NumberKey(n);
        NumberKeyInjective(j, n);
      }
    }
  }

  lemma {:induction false} SubsetCard(a: set<string>, b: set<string>)
    requires a <= b
    ensures |a| <= |b|
    decreases |a|
  {
    if a != {} {
      var x :| x in a;
      SubsetCard(a - {x}, b - {x});
    }
  }

  /** Indices 1..n all present means at least n keys: the loop cannot run
      past the size of the file. */
  lemma NumberKeysCounted(props: Properties, n: nat)
    requires forall j :: 1 <= j <= n ==> Present(props, j)
    ensures n <= |props.Keys|
  {
    NumberKeysCount(n);
    forall j | 1 <= j <= n ensures NumberKey(j) in props.Keys {
      assert Present(props, j);
    }
    SubsetCard(set j | 1 <= j <= n :: NumberKey(j), props.Keys);
  }

  /** The run is unique: the accounts are determined by the properties. */
  lemma AccountRunUnique(props: Properties, a: seq<BankAccount>, b: seq<BankAccount>)
    requires IsAccountRun(props, a) && IsAccountRun(props, b)
    ensures a == b
  {
    // Neither run can be longer: its next index would be present.
    assert |a| == |b|;
    forall i | 0 <= i < |a| ensures a[i] == b[i] {
      assert a[(i + 1) - 1] == AccountAt(props, i + 1);
    }
  }

  /** Indices after the first gap are ignored: changing any key of a later
      index does not change the run. */
  lemma LaterIndicesIgnored(props: Properties, props': Properties, read: seq<BankAccount>)
    requires IsAccountRun(props, read)
    requires forall i: nat :: 1 <= i <= |read| + 1 ==>
               Get(props', NumberKey(i), "") == Get(props, NumberKey(i), "") && (NumberKey(i) in props' <==> NumberKey(i) in props)
               && Get(props', NameKey(i), "") == Get(props, NameKey(i), "") && (NameKey(i) in props' <==> NameKey(i) in props)
    ensures IsAccountRun(props', read)
  {
    forall i | 1 <= i <= |read| ensures Present(props', i) && read[i - 1] == AccountAt(props', i) {
      assert Present(props, i);
    }
    assert !Present(props, |read| + 1);
  }

  /** A whitespace-only value passes the emptiness check and is stored as "". */
  lemma BlankValueStoredEmpty(props: Properties, i: nat)
    requires Present(props, i) && props[NumberKey(i)] == " "
    ensures AccountAt(props, i).number == ""
  {
  }

  /** Whatever the properties, the configured list is never empty; with no
      account 1 it is exactly the two defaults. */
  lemma AccountsNeverEmpty(props: Properties, accounts: seq<BankAccount>)
    requires IsConfiguredAccounts(props, accounts)
    ensures |accounts| > 0
    ensures !Present(props, 1) ==> accounts == DefaultAccounts
  {
    var read :| IsAccountRun(props, read) && accounts == (if read == [] then DefaultAccounts else read);
  }

  /** The environment variable wins over the system property even when it is
      set to the empty string: the secret is then "" and every webhook is
      refused. */
  lemma EmptyEnvSecretWins(props: Properties, sysProps: Properties)
    requires SecretKey !in props
    ensures Secret(props, Some(""), sysProps) == ""
  {
  }
}
