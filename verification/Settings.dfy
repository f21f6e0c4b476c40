/** The settings made before traffic. */
module Settings {
  import opened Serial
  import opened ControlBlock

  /** What `ikcp_create` starts with. */
  function Defaults(conv: u32): Config {
    Config(conv, MTU_DEF, WND_SND, WND_RCV, INTERVAL, 0, RTO_MIN, 0, FASTACK_LIMIT, false, false, DEADLINK)
  }

  datatype Setting =
    | Mtu(mtu: i32)
    | WndSize(sndwnd: i32, rcvwnd: i32)
    | NoDelay(nodelay: i32, interval: i32, resend: i32, nc: i32)
    | Interval(interval: i32)
    | Stream(on: bool)

  function SetMtu(cfg: Config, mtu: i32): (Config, int) {
    if mtu < 50 then (cfg, -1) else (cfg.(mtu := mtu), 0)
  }

  function SetWndSize(cfg: Config, sndwnd: i32, rcvwnd: i32): Config {
    cfg.(sndWnd := if sndwnd > 0 then sndwnd else cfg.sndWnd,
         rcvWnd := if rcvwnd > 0 then Max(rcvwnd, WND_RCV) else cfg.rcvWnd)
  }

  function ClampInterval(interval: nat): u32 {
    if interval > 5000 then 5000 else if interval < 10 then 10 else interval
  }

  /** `ikcp_interval`. */
  function SetInterval(cfg: Config, interval: i32): Config {
    cfg.(interval := if interval < 0 then 10 else ClampInterval(interval))
  }

  function SetNoDelay(cfg: Config, nodelay: i32, interval: i32, resend: i32, nc: i32): Config {
    cfg.(nodelay := if nodelay >= 0 then nodelay else cfg.nodelay,
         minRto := if nodelay < 0 then cfg.minRto else if nodelay != 0 then RTO_NDL else RTO_MIN,
         interval := if interval >= 0 then ClampInterval(interval) else cfg.interval,
         fastResend := if resend >= 0 then resend else cfg.fastResend,
         noCwnd := if nc >= 0 then nc != 0 else cfg.noCwnd)
  }

  /** The wrapper takes window sizes from 16-bit fields and `resend` from an 8-bit
      one; a datagram is at most 65535 bytes long. */
  predicate InRange(s: Setting) {
    match s
    case Mtu(mtu) => mtu <= 65535
    case WndSize(sndwnd, rcvwnd) => sndwnd <= 65535 && rcvwnd <= 65535
    case NoDelay(_, _, resend, _) => resend <= 255
    case _ => true
  }

  function Configure(cfg: Config, s: Setting): Config {
    match s
    case Mtu(mtu) => SetMtu(cfg, mtu).0
    case WndSize(sndwnd, rcvwnd) => SetWndSize(cfg, sndwnd, rcvwnd)
    case NoDelay(nodelay, interval, resend, nc) => SetNoDelay(cfg, nodelay, interval, resend, nc)
    case Interval(interval) => SetInterval(cfg, interval)
    case Stream(on) => cfg.(stream := on)
  }

  function ConfigureAll(cfg: Config, ss: seq<Setting>): Config {
    if ss == [] then cfg else Configure(ConfigureAll(cfg, ss[..|ss| - 1]), ss[|ss| - 1])
  }

  /** Any settings lead from the defaults to a configuration that the rest of this
      model is about. */
  lemma {:induction false} SettingsAreValid(conv: u32, ss: seq<Setting>)
    requires forall s | s in ss :: InRange(s)
    ensures ConfigureAll(Defaults(conv), ss).Valid()
  {
    if ss != [] {
      var init, last := ss[..|ss| - 1], ss[|ss| - 1];
      assert last in ss && forall s | s in init :: s in ss;
      SettingsAreValid(conv, init);
    }
  }

  // ---- which setting counts ----

  predicate SetsMtu(s: Setting) { s.Mtu? && s.mtu >= 50 }

  predicate SetsSndWnd(s: Setting) { s.WndSize? && s.sndwnd > 0 }

  predicate SetsRcvWnd(s: Setting) { s.WndSize? && s.rcvwnd > 0 }

  predicate SetsNodelay(s: Setting) { s.NoDelay? && s.nodelay >= 0 }

  predicate SetsResend(s: Setting) { s.NoDelay? && s.resend >= 0 }

  predicate SetsNoCwnd(s: Setting) { s.NoDelay? && s.nc >= 0 }

  predicate SetsInterval(s: Setting) { s.Interval? || (s.NoDelay? && s.interval >= 0) }

  predicate SetsStream(s: Setting) { s.Stream? }

  /** Of the settings, the one at `i` is the last of its kind. */
  ghost predicate LastOf(ss: seq<Setting>, i: nat, kind: Setting -> bool) {
    i < |ss| && kind(ss[i]) && forall j | i < j < |ss| :: !kind(ss[j])
  }

  lemma ConfigureFields(cfg: Config, s: Setting)
    ensures var cfg' := Configure(cfg, s);
            && cfg'.conv == cfg.conv && cfg'.fastLimit == cfg.fastLimit && cfg'.deadLink == cfg.deadLink
            && cfg'.mtu == (if SetsMtu(s) then s.mtu else cfg.mtu)
            && cfg'.sndWnd == (if SetsSndWnd(s) then s.sndwnd else cfg.sndWnd)
            && cfg'.rcvWnd == (if SetsRcvWnd(s) then Max(s.rcvwnd, 128) else cfg.rcvWnd)
            && cfg'.nodelay == (if SetsNodelay(s) then s.nodelay else cfg.nodelay)
            && cfg'.minRto == (if !SetsNodelay(s) then cfg.minRto else if s.nodelay == 0 then 100 else 30)
            && cfg'.fastResend == (if SetsResend(s) then s.resend else cfg.fastResend)
            && cfg'.noCwnd == (if SetsNoCwnd(s) then s.nc != 0 else cfg.noCwnd)
            && cfg'.interval == (if SetsInterval(s) then Min(Max(s.interval, 10), 5000) else cfg.interval)
            && cfg'.stream == (if SetsStream(s) then s.on else cfg.stream)
  {
  }

  /** For each field the last setting that names a sensible value counts, whatever comes
      between: a receive window of at least 128, an interval from 10 to 5000, and a
      smallest timeout of 30 ms with `nodelay` on, 100 ms with it off. */
  lemma {:induction false} LastSettingCounts(conv: u32, ss: seq<Setting>, i: nat)
    requires i < |ss|
    ensures var s, cfg := ss[i], ConfigureAll(Defaults(conv), ss);
            && (LastOf(ss, i, SetsMtu) ==> cfg.mtu == s.mtu)
            && (LastOf(ss, i, SetsSndWnd) ==> cfg.sndWnd == s.sndwnd)
            && (LastOf(ss, i, SetsRcvWnd) ==> cfg.rcvWnd == Max(s.rcvwnd, 128))
            && (LastOf(ss, i, SetsNodelay) ==> cfg.nodelay == s.nodelay && cfg.minRto == if s.nodelay == 0 then 100 else 30)
            && (LastOf(ss, i, SetsResend) ==> cfg.fastResend == s.resend)
            && (LastOf(ss, i, SetsNoCwnd) ==> (cfg.noCwnd <==> s.nc != 0))
            && (LastOf(ss, i, SetsInterval) ==> cfg.interval == Min(Max(s.interval, 10), 5000))
            && (LastOf(ss, i, SetsStream) ==> cfg.stream == s.on)
  {
    var init := ss[..|ss| - 1];
    ConfigureFields(ConfigureAll(Defaults(conv), init), ss[|ss| - 1]);
    hide Configure, SetsMtu, SetsSndWnd, SetsRcvWnd, SetsNodelay, SetsResend, SetsNoCwnd, SetsInterval, SetsStream;
    if i < |ss| - 1 {
      assert init[i] == ss[i] && forall j | i < j < |init| :: init[j] == ss[j];
      LastSettingCounts(conv, init, i);
    }
  }

  /** A field for which there was none has the value that creation gave it. */
  lemma {:induction false} OtherwiseDefaults(conv: u32, ss: seq<Setting>)
    ensures var cfg := ConfigureAll(Defaults(conv), ss);
            && cfg.conv == conv && cfg.fastLimit == 5 && cfg.deadLink == 20
            && (!(exists s | s in ss :: SetsMtu(s)) ==> cfg.mtu == 1400)
            && (!(exists s | s in ss :: SetsSndWnd(s)) ==> cfg.sndWnd == 32)
            && (!(exists s | s in ss :: SetsRcvWnd(s)) ==> cfg.rcvWnd == 128)
            && (!(exists s | s in ss :: SetsNodelay(s)) ==> cfg.nodelay == 0 && cfg.minRto == 100)
            && (!(exists s | s in ss :: SetsResend(s)) ==> cfg.fastResend == 0)
            && (!(exists s | s in ss :: SetsNoCwnd(s)) ==> !cfg.noCwnd)
            && (!(exists s | s in ss :: SetsInterval(s)) ==> cfg.interval == 100)
            && (!(exists s | s in ss :: SetsStream(s)) ==> !cfg.stream)
  {
    if ss != [] {
      var init, last := ss[..|ss| - 1], ss[|ss| - 1];
      assert last in ss && forall s | s in init :: s in ss;
      ConfigureFields(ConfigureAll(Defaults(conv), init), last);
      hide Configure, SetsMtu, SetsSndWnd, SetsRcvWnd, SetsNodelay, SetsResend, SetsNoCwnd, SetsInterval, SetsStream;
      OtherwiseDefaults(conv, init);
    }
  }
}
