/**
 * The force-stop set on values: the packages flagged to be stopped when the
 * screen goes off, how writeForceStopPackage toggles one of them, and which
 * packages initialStopSet flags on first use.
 */
module ForceStop {

  const FORCESTOP_PACKAGE_BILIBILI := "tv.danmaku.bili"
  const FORCESTOP_PACKAGE_BILIBILI_HD := "tv.danmaku.bilibilihd"
  const FORCESTOP_PACKAGE_BILIBILI_IN := "com.bilibili.app.in"

  /** The packages flagged on first use when they are installed, in the order they are checked. */
  const SEED_PACKAGES: seq<string> :=
    [FORCESTOP_PACKAGE_BILIBILI, FORCESTOP_PACKAGE_BILIBILI_HD, FORCESTOP_PACKAGE_BILIBILI_IN]

  /** The set after flagging (`enabled`) or unflagging `packageName`. */
  function Toggled(stopSet: set<string>, packageName: string, enabled: bool): (r: set<string>)
    ensures packageName in r <==> enabled
    ensures forall q :: q != packageName ==> (q in r <==> q in stopSet)
  {
    if enabled then stopSet + {packageName} else stopSet - {packageName}
  }

  /** Repeating the same toggle changes nothing. */
  lemma ToggledIdempotent(stopSet: set<string>, packageName: string, enabled: bool)
    ensures Toggled(Toggled(stopSet, packageName, enabled), packageName, enabled)
            == Toggled(stopSet, packageName, enabled)
  {
  }

  /** Flagging an already flagged package, or unflagging one that is not, is a no-op. */
  lemma ToggledNoOp(stopSet: set<string>, packageName: string, enabled: bool)
    requires (packageName in stopSet) == enabled
    ensures Toggled(stopSet, packageName, enabled) == stopSet
  {
  }

  /** The seed packages that are installed. */
  function Seeded(installed: set<string>): (r: set<string>)
    ensures forall p :: p in r <==> p in SEED_PACKAGES && p in installed
  {
    set p | p in SEED_PACKAGES && p in installed
  }

  /** `{pkg}` when `pkg` is installed, `{}` otherwise: what checking one package adds. */
  function IfInstalled(installed: set<string>, pkg: string): (r: set<string>)
    ensures r <= {pkg} && (pkg in r <==> pkg in installed)
  {
    if pkg in installed then {pkg} else {}
  }

  /** Checking the seed packages one after another adds exactly the installed ones. */
  lemma SeededOneByOne(installed: set<string>)
    ensures Seeded(installed) ==
      IfInstalled(installed, FORCESTOP_PACKAGE_BILIBILI) + IfInstalled(installed, FORCESTOP_PACKAGE_BILIBILI_HD)
      + IfInstalled(installed, FORCESTOP_PACKAGE_BILIBILI_IN)
  {
    assert forall p :: p in SEED_PACKAGES <==>
      p == FORCESTOP_PACKAGE_BILIBILI || p == FORCESTOP_PACKAGE_BILIBILI_HD || p == FORCESTOP_PACKAGE_BILIBILI_IN;
  }
}
