/** The stored configuration (src/flash_config.h) and what makes one valid. */
module FlashConfig {
  import opened CStrings
  import opened DaylightSaving

  const SSID_SIZE := 33       // WIFI_SSID_MAX_LEN + 1
  const PASSWORD_SIZE := 64   // WIFI_PASSWORD_MAX_LEN + 1
  const HOST_SIZE := 65       // HOSTNAME_MAX_LEN + 1

  const MIN_TZ := -720
  const MAX_TZ := 840
  const MIN_TIMEOUT := 1_000
  const MAX_TIMEOUT := 60_000

  /** The string fields are whole character arrays; the magic marker is modelled by where a Config is. */
  datatype Config = Config(ssid: string, password: string, ntpServer: string,
                           tz: int, dst: DstRule, timeout: int, port: int, led: bool)

  /** A character array of `size` that always holds a terminated string: its last element is NUL. */
  predicate Terminated(field: string, size: nat) {
    |field| == size > 0 && field[size - 1] == NUL
  }

  predicate Valid(c: Config) {
    && Terminated(c.ssid, SSID_SIZE) && Terminated(c.password, PASSWORD_SIZE) && Terminated(c.ntpServer, HOST_SIZE)
    && MIN_TZ <= c.tz <= MAX_TZ
    && MIN_TIMEOUT <= c.timeout <= MAX_TIMEOUT
    && 1 <= c.port <= 65_535
  }

  function Zeros(n: nat): (r: string)
    ensures |r| == n && forall i :: 0 <= i < n ==> r[i] == NUL
  {
    seq(n, i => NUL)
  }

  /** The character array of `size` that holds `s` and is NUL from there on. */
  function Padded(s: string, size: nat): (r: string)
    requires |s| <= size
    ensures |r| == size
  {
    s + Zeros(size - |s|)
  }

  /** strncpy(field, value, sizeof(field) - 1) */
  function StrNCpy(field: string, value: string): (r: string)
    requires field != ""
    ensures |r| == |field|
  {
    var n := |field| - 1;
    Padded(if |value| > n then value[..n] else value, n) + [field[n]]
  }

  /** The configuration that POST starts from when there is none to copy. */
  const DEFAULTS := Config(Zeros(SSID_SIZE), Zeros(PASSWORD_SIZE), Padded("pool.ntp.org", HOST_SIZE),
                           0, DstRule.None, 10_000, 123, false)

  lemma DefaultsValid()
    ensures Valid(DEFAULTS)
  {
    assert Padded("pool.ntp.org", HOST_SIZE)[HOST_SIZE - 1] == NUL;
  }

  /** They ask pool.ntp.org on port 123 within 10 seconds, for UTC without daylight saving. */
  lemma DefaultsAre()
    ensures CStr(DEFAULTS.ssid) == "" && CStr(DEFAULTS.password) == "" && CStr(DEFAULTS.ntpServer) == "pool.ntp.org"
    ensures DEFAULTS.tz == 0 && DEFAULTS.dst == DstRule.None && !DEFAULTS.led
    ensures DEFAULTS.timeout == 10_000 && DEFAULTS.port == 123
  {
    CStrOfPadded("pool.ntp.org", HOST_SIZE);
  }

  /** strncpy keeps the array terminated when its last element was NUL, and then holds the value cut to fit. */
  lemma StrNCpyTerminates(field: string, value: string, size: nat)
    requires Terminated(field, size) && NoNul(value)
    ensures Terminated(StrNCpy(field, value), size)
    ensures CStr(StrNCpy(field, value)) == if |value| > size - 1 then value[..size - 1] else value
    ensures |value| < size ==> StrNCpy(field, value) == Padded(value, size)
  {
    var cut := if |value| > size - 1 then value[..size - 1] else value;
    CStrOfPadded(cut, size);
    assert StrNCpy(field, value) == Padded(cut, size);
  }

  /** What strncpy itself asks for: a value leaves a terminator in the array exactly if the array's last
      element was one, or the value leaves room for one before it. */
  lemma StaysTerminated(field: string, value: string)
    requires field != "" && NoNul(value)
    ensures !NoNul(StrNCpy(field, value)) <==> field[|field| - 1] == NUL || |value| < |field| - 1
  {
    var n, r := |field| - 1, StrNCpy(field, value);
    assert r[n] == field[n];
    if |value| < n {
      assert r[|value|] == NUL;
    } else {
      assert r[..n] == value[..n];
      assert forall i :: 0 <= i < n ==> r[i] == value[i];
    }
  }

  /** So a NUL somewhere is not kept: a 32-character SSID wipes out all but the last element. */
  lemma LastElementMatters()
    ensures var field, value := Zeros(SSID_SIZE - 1) + ['x'], seq(SSID_SIZE - 1, i => 'a');
            !NoNul(field) && NoNul(StrNCpy(field, value))
  {
    var field, value := Zeros(SSID_SIZE - 1) + ['x'], seq(SSID_SIZE - 1, i => 'a');
    assert field[0] == NUL;
    StaysTerminated(field, value);
  }

  lemma CStrOfPadded(s: string, size: nat)
    requires NoNul(s) && |s| < size
    ensures CStr(Padded(s, size)) == s
  {
    var p := Padded(s, size);
    assert p[..|s|] == s && p[|s|] == NUL;
    CStrIs(p, |s|);
  }
}
