/** Storage quotas: users may store what they contribute, divided by a ratio (quota.rs). */
module Quota {
  import opened Basics

  type Ratio = r: real | r > 0.0 witness 1.0

  datatype QuotaConfig = QuotaConfig(minContribution: U64, maxUsage: U64, contributionRatio: Ratio, gracePeriodSecs: U64)

  datatype UserQuota = UserQuota(
    userId: string,
    bytesUsed: U64,
    bytesContributed: U64,
    filesCount: U64,
    shardsHosted: U64,
    joinedAt: U64,
    lastActive: U64,
    inGracePeriod: bool)

  type Quotas = map<string, UserQuota>

  datatype QuotaCheckResult =
    | Allowed
    | InsufficientQuota(currentContribution: U64, neededContribution: U64)

  // ---- Arithmetic ---------------------------------------------------------------------------

  /** The conversion of a nonnegative number to 64 bits, which rounds down and saturates. */
  function ToU64(x: real): U64
    requires x >= 0.0
  {
    if x.Floor < U64_LIMIT then x.Floor else U64_LIMIT - 1
  }

  /** The storage that a contribution entitles to, before the upper limit. */
  function Earned(contributed: nat, ratio: Ratio): U64 {
    QuotientNonnegative(contributed as real, ratio);
    ToU64(contributed as real / ratio)
  }

  lemma QuotientNonnegative(x: real, ratio: Ratio)
    requires x >= 0.0
    ensures x / ratio >= 0.0 && x * ratio >= 0.0
  {}

  function AvailableStorage(q: UserQuota, config: QuotaConfig): U64 {
    if q.inGracePeriod then config.minContribution
    else SaturatingSub(Min(Earned(q.bytesContributed, config.contributionRatio), config.maxUsage), q.bytesUsed)
  }

  predicate QuotaAllows(q: UserQuota, size: nat, config: QuotaConfig) { AvailableStorage(q, config) >= size }

  /** The total contribution asked of a user for `total` bytes. */
  function Asked(total: nat, ratio: Ratio): U64 { ToU64(Price(total, ratio)) }

  /** What `total` bytes cost, before rounding. */
  function Price(total: nat, ratio: Ratio): (x: real)
    ensures x >= 0.0
  {
    QuotientNonnegative(total as real, ratio);
    total as real * ratio
  }

  function NeededContribution(q: UserQuota, additional: U64, config: QuotaConfig): U64 {
    SaturatingSub(Asked(WrapAdd(q.bytesUsed, additional), config.contributionRatio), q.bytesContributed)
  }

  // ---- One user's record --------------------------------------------------------------------

  function NewQuota(userId: string, now: U64): UserQuota { UserQuota(userId, 0, 0, 0, 0, now, now, true) }

  function GraceChecked(q: UserQuota, config: QuotaConfig, now: U64): UserQuota {
    if q.inGracePeriod && WrapSub(now, q.joinedAt) > config.gracePeriodSecs then q.(inGracePeriod := false) else q
  }

  function Created(quotas: Quotas, userId: string, now: U64): (after: Quotas)
    ensures userId in after
  {
    if userId in quotas then quotas else quotas[userId := NewQuota(userId, now)]
  }

  function CanUploadStep(config: QuotaConfig, quotas: Quotas, userId: string, size: U64, now: U64): (Quotas, QuotaCheckResult) {
    var q := GraceChecked(Created(quotas, userId, now)[userId], config, now);
    var after := Created(quotas, userId, now)[userId := q];
    (after, if QuotaAllows(q, size, config) then Allowed
            else InsufficientQuota(q.bytesContributed, NeededContribution(q, size, config)))
  }

  function RecordUploadStep(quotas: Quotas, userId: string, size: U64, now: U64): Quotas {
    var q := Created(quotas, userId, now)[userId];
    Created(quotas, userId, now)[userId := q.(bytesUsed := WrapAdd(q.bytesUsed, size), filesCount := WrapAdd(q.filesCount, 1), lastActive := now)]
  }

  function RecordDeletionStep(quotas: Quotas, userId: string, size: U64): Quotas {
    if userId !in quotas then quotas
    else
      var q := quotas[userId];
      quotas[userId := q.(bytesUsed := SaturatingSub(q.bytesUsed, size), filesCount := SaturatingSub(q.filesCount, 1))]
  }

  function Hosting(q: UserQuota, size: U64, now: U64): UserQuota {
    q.(bytesContributed := WrapAdd(q.bytesContributed, size), shardsHosted := WrapAdd(q.shardsHosted, 1), lastActive := now)
  }

  function RecordShardHostedStep(quotas: Quotas, userId: string, size: U64, now: U64): Quotas {
    Created(quotas, userId, now)[userId := Hosting(Created(quotas, userId, now)[userId], size, now)]
  }

  function RecordShardRemovedStep(quotas: Quotas, userId: string, size: U64): Quotas {
    if userId !in quotas then quotas
    else
      var q := quotas[userId];
      quotas[userId := q.(bytesContributed := SaturatingSub(q.bytesContributed, size),
                          shardsHosted := SaturatingSub(q.shardsHosted, 1))]
  }

  class QuotaManager {
    const config: QuotaConfig
    var quotas: Quotas

    constructor (config: QuotaConfig)
      ensures this.config == config && quotas == map[]
    {
      this.config := config;
      quotas := map[];
    }

    method GetUserQuota(userId: string, now: U64) returns (q: UserQuota)
      modifies this
      ensures quotas == Created(old(quotas), userId, now) && q == quotas[userId]
    {
      if userId !in quotas {
        quotas := quotas[userId := NewQuota(userId, now)];
      }
      return quotas[userId];
    }

    method CanUpload(userId: string, size: U64, now: U64) returns (result: QuotaCheckResult)
      modifies this
      ensures (quotas, result) == CanUploadStep(config, old(quotas), userId, size, now)
    {
      var q := GetUserQuota(userId, now);
      if q.inGracePeriod && WrapSub(now, q.joinedAt) > config.gracePeriodSecs {
        q := q.(inGracePeriod := false);
      }
      quotas := quotas[userId := q];
      if QuotaAllows(q, size, config) {
        return Allowed;
      }
      return InsufficientQuota(q.bytesContributed, NeededContribution(q, size, config));
    }

    method RecordUpload(userId: string, size: U64, now: U64)
      modifies this
      ensures quotas == RecordUploadStep(old(quotas), userId, size, now)
    {
      var q := GetUserQuota(userId, now);
      q := q.(bytesUsed := WrapAdd(q.bytesUsed, size));
      q := q.(filesCount := WrapAdd(q.filesCount, 1));
      quotas := quotas[userId := q.(lastActive := now)];
    }

    method RecordDeletion(userId: string, size: U64)
      modifies this
      ensures quotas == RecordDeletionStep(old(quotas), userId, size)
    {
      if userId in quotas {
        var q := quotas[userId];
        q := q.(bytesUsed := SaturatingSub(q.bytesUsed, size));
        quotas := quotas[userId := q.(filesCount := SaturatingSub(q.filesCount, 1))];
      }
    }

    method RecordShardHosted(userId: string, shardSize: U64, now: U64)
      modifies this
      ensures quotas == RecordShardHostedStep(old(quotas), userId, shardSize, now)
    {
      var q := GetUserQuota(userId, now);
      q := q.(bytesContributed := WrapAdd(q.bytesContributed, shardSize));
      q := q.(shardsHosted := WrapAdd(q.shardsHosted, 1));
      quotas := quotas[userId := q.(lastActive := now)];
    }

    method RecordShardRemoved(userId: string, shardSize: U64)
      modifies this
      ensures quotas == RecordShardRemovedStep(old(quotas), userId, shardSize)
    {
      if userId in quotas {
        var q := quotas[userId];
        q := q.(bytesContributed := SaturatingSub(q.bytesContributed, shardSize));
        quotas := quotas[userId := q.(shardsHosted := SaturatingSub(q.shardsHosted, 1))];
      }
    }
  }

  // ---- What the quota allows ----------------------------------------------------------------

  lemma QuotientAtLeast(x: real, ratio: Ratio, t: int)
    ensures (x / ratio).Floor >= t <==> x >= t as real * ratio
  {
    var q := x / ratio;
    assert q * ratio == x;
    if q >= t as real {
      Scaled(t as real, q, ratio);
    } else {
      Scaled(q, t as real, ratio);
    }
  }

  lemma Scaled(a: real, b: real, ratio: Ratio)
    ensures a <= b ==> a * ratio <= b * ratio
    ensures a < b ==> a * ratio < b * ratio
  {
    assert (b - a) * ratio == b * ratio - a * ratio;
  }

  /**
   Out of grace, an upload of at least one byte is allowed exactly when the resulting usage, times
   the ratio, is covered by the contribution, and the usage stays within the upper limit.
   */
  lemma AllowedExact(q: UserQuota, size: U64, config: QuotaConfig)
    requires !q.inGracePeriod && size > 0
    ensures QuotaAllows(q, size, config) <==>
            && (q.bytesUsed + size) as real * config.contributionRatio <= q.bytesContributed as real
            && q.bytesUsed + size <= config.maxUsage
  {
    QuotientNonnegative(q.bytesContributed as real, config.contributionRatio);
    QuotientAtLeast(q.bytesContributed as real, config.contributionRatio, q.bytesUsed + size);
  }

  lemma AllowedByPrice(q: UserQuota, size: U64, config: QuotaConfig)
    requires !q.inGracePeriod && size > 0
    ensures QuotaAllows(q, size, config) <==>
            Price(q.bytesUsed + size, config.contributionRatio) <= q.bytesContributed as real && q.bytesUsed + size <= config.maxUsage
  {
    hide QuotaAllows;
    AllowedExact(q, size, config);
  }

  lemma Converted(x: real)
    requires 0.0 <= x
    ensures ToU64(x) as real <= x
    ensures x == x.Floor as real && x < U64_LIMIT as real ==> ToU64(x) as real == x
  {}

  lemma AskedAtMost(total: nat, ratio: Ratio)
    ensures Asked(total, ratio) as real <= Price(total, ratio)
  {
    hide ToU64, Price;
    Converted(Price(total, ratio));
  }

  /** The amount asked for is necessary: with any smaller total contribution the upload is refused. */
  lemma AskedIsNecessary(q: UserQuota, size: U64, config: QuotaConfig)
    requires !q.inGracePeriod && size > 0
    requires q.bytesContributed < Asked(q.bytesUsed + size, config.contributionRatio)
    ensures !QuotaAllows(q, size, config)
  {
    hide QuotaAllows, Asked, Price;
    AskedAtMost(q.bytesUsed + size, config.contributionRatio);
    AllowedByPrice(q, size, config);
  }

  /**
   Contributing exactly the amount asked for is enough if and only if that amount did not have to
   be rounded down.
   */
  lemma AskedIsEnough(q: UserQuota, size: U64, config: QuotaConfig)
    requires !q.inGracePeriod && size > 0 && q.bytesUsed + size <= config.maxUsage
    requires q.bytesContributed == Asked(q.bytesUsed + size, config.contributionRatio)
    ensures QuotaAllows(q, size, config) <==>
            q.bytesContributed as real == (q.bytesUsed + size) as real * config.contributionRatio
  {
    QuotientNonnegative((q.bytesUsed + size) as real, config.contributionRatio);
    AllowedExact(q, size, config);
  }

  /** Rounding down does lose: at a ratio of 1.5, one byte asks for a contribution of one, which is refused. */
  lemma RoundedAmountRefused(config: QuotaConfig, q: UserQuota)
    requires config.contributionRatio == 1.5 && config.maxUsage > 0
    requires !q.inGracePeriod && q.bytesUsed == 0 && q.bytesContributed == Asked(1, 1.5)
    ensures q.bytesContributed == 1 && !QuotaAllows(q, 1, config)
  {
    assert Price(1, 1.5) == 1.5;
    AllowedExact(q, 1, config);
  }

  /**
   What `InsufficientQuota` asks for, seen by the user who then hosts shards and tries again: any
   less is refused again, and exactly that much is enough if and only if the price of the upload was
   not rounded down.  Beyond the upper limit no contribution helps.
   */
  lemma HostingWhatIsNeeded(config: QuotaConfig, quotas: Quotas, user: string, size: U64, now: U64,
                            hosted: U64, hostedAt: U64, later: U64)
    requires var first := CanUploadStep(config, quotas, user, size, now);
             first.1.InsufficientQuota? && OutOfGrace(first.0, user)
    ensures var first := CanUploadStep(config, quotas, user, size, now);
            var again := CanUploadStep(config, RecordShardHostedStep(first.0, user, hosted, hostedAt), user, size, later).1;
            var total := first.0[user].bytesUsed + size;
            && (hosted < first.1.neededContribution ==> again.InsufficientQuota?)
            && (hosted == first.1.neededContribution && total <= config.maxUsage ==>
                  (again.Allowed? <==> Asked(total, config.contributionRatio) as real == Price(total, config.contributionRatio)))
            && (total > config.maxUsage ==> again.InsufficientQuota?)
  {
    hide QuotaAllows, NeededContribution, WrapAdd;
    var q := CanUploadStep(config, quotas, user, size, now).0[user];
    RefusedIsPositive(q, size, config);
    if hosted < NeededContribution(q, size, config) {
      LessIsRefused(q, size, hosted, hostedAt, config);
    }
    if q.bytesUsed + size > config.maxUsage {
      AllowedExact(Hosting(q, hosted, hostedAt), size, config);
    } else if hosted == NeededContribution(q, size, config) {
      NeededIsEnough(q, size, hosted, hostedAt, config);
    }
  }

  lemma LessIsRefused(q: UserQuota, size: U64, hosted: U64, hostedAt: U64, config: QuotaConfig)
    requires !q.inGracePeriod && size > 0 && hosted < NeededContribution(q, size, config)
    ensures !QuotaAllows(Hosting(q, hosted, hostedAt), size, config)
  {
    hide QuotaAllows, Asked;
    var more := Hosting(q, hosted, hostedAt);
    assert more.bytesContributed == q.bytesContributed + hosted;
    if q.bytesUsed + size < U64_LIMIT {
      AskedIsNecessary(more, size, config);
    } else {
      AllowedExact(more, size, config);
    }
  }

  lemma NeededIsEnough(q: UserQuota, size: U64, hosted: U64, hostedAt: U64, config: QuotaConfig)
    requires !q.inGracePeriod && size > 0 && hosted == NeededContribution(q, size, config)
    requires !QuotaAllows(q, size, config) && q.bytesUsed + size <= config.maxUsage
    ensures var total := q.bytesUsed + size;
            QuotaAllows(Hosting(q, hosted, hostedAt), size, config) <==>
            Asked(total, config.contributionRatio) as real == Price(total, config.contributionRatio)
  {
    hide QuotaAllows, Asked, Price;
    AllowedByPrice(q, size, config);
    AllowedByPrice(Hosting(q, hosted, hostedAt), size, config);
    AskedAtMost(q.bytesUsed + size, config.contributionRatio);
  }

  lemma RefusedIsPositive(q: UserQuota, size: U64, config: QuotaConfig)
    ensures !QuotaAllows(q, size, config) ==> size > 0
  {}

  /** With an integral ratio nothing is rounded, as long as the amount fits 64 bits. */
  lemma IntegralRatioIsExact(total: nat, ratio: Ratio)
    requires ratio == ratio.Floor as real && total as real * ratio < U64_LIMIT as real
    ensures Asked(total, ratio) as real == total as real * ratio
  {
    hide ToU64, Price;
    PriceIsProduct(total, ratio);
    IntegralPrice(total, ratio.Floor);
    Converted(Price(total, ratio));
  }

  lemma PriceIsProduct(total: nat, ratio: Ratio)
    ensures Price(total, ratio) == total as real * ratio
  {}

  lemma IntegralPrice(total: nat, ratio: nat)
    requires ratio > 0
    ensures Price(total, ratio as real) == (total * ratio) as real
  {}

  /** With a ratio of at least one, contributing the amount asked for misses by at most one byte. */
  lemma AskedMissesByOne(total: nat, ratio: Ratio)
    requires total > 0 && ratio >= 1.0 && total as real * ratio < U64_LIMIT as real
    ensures Earned(Asked(total, ratio), ratio) >= total - 1
  {
    QuotientNonnegative(total as real, ratio);
    var asked := Asked(total, ratio);
    QuotientNonnegative(asked as real, ratio);
    assert (total - 1) as real * ratio == total as real * ratio - ratio;
    QuotientAtLeast(asked as real, ratio, total - 1);
    TotalFits(total, ratio);
  }

  lemma TotalFits(total: nat, ratio: Ratio)
    requires ratio >= 1.0 && total as real * ratio < U64_LIMIT as real
    ensures total < U64_LIMIT
  {
    assert total as real * (ratio - 1.0) >= 0.0;
  }

  // ---- Grace --------------------------------------------------------------------------------

  /** During grace an upload is allowed up to the minimum contribution, whatever is used or contributed. */
  lemma GraceAllowance(q: UserQuota, size: U64, config: QuotaConfig)
    requires q.inGracePeriod
    ensures QuotaAllows(q, size, config) <==> size <= config.minContribution
  {}

  /** A check ends the grace of a user who joined longer ago than the grace period, on the wrapping clock. */
  lemma GraceEndsExact(config: QuotaConfig, quotas: Quotas, user: string, size: U64, now: U64)
    ensures var after := CanUploadStep(config, quotas, user, size, now).0;
            && (user !in quotas ==> after[user].inGracePeriod)
            && (user in quotas ==>
                  (after[user].inGracePeriod <==>
                     quotas[user].inGracePeriod
                     && (now - quotas[user].joinedAt) % 0x1_0000_0000_0000_0000 <= config.gracePeriodSecs))
  {}

  lemma AddFits(a: nat, b: nat)
    ensures a + b < U64_LIMIT ==> WrapAdd(a, b) == a + b
  {}

  /** A refusal names the present contribution, and what the rounded price of the upload exceeds it by. */
  lemma RefusalExact(config: QuotaConfig, quotas: Quotas, user: string, size: U64, now: U64)
    ensures var step := CanUploadStep(config, quotas, user, size, now);
            var q := step.0[user];
            && (step.1.Allowed? <==> QuotaAllows(q, size, config))
            && (step.1.InsufficientQuota? && q.bytesUsed + size < U64_LIMIT ==>
                  var asked := Asked(q.bytesUsed + size, config.contributionRatio);
                  && step.1.currentContribution == q.bytesContributed
                  && step.1.neededContribution == if asked < q.bytesContributed then 0 else asked - q.bytesContributed)
  {
    hide Asked, QuotaAllows, WrapAdd;
    AddFits(CanUploadStep(config, quotas, user, size, now).0[user].bytesUsed, size);
  }

  // ---- Runs ---------------------------------------------------------------------------------

  datatype Operation =
    | CheckUpload(userId: string, size: U64)
    | RecordUpload(userId: string, size: U64)
    | RecordDeletion(userId: string, size: U64)
    | RecordShardHosted(userId: string, size: U64)
    | RecordShardRemoved(userId: string, size: U64)

  datatype Event = Event(now: U64, op: Operation)

  function Step(config: QuotaConfig, quotas: Quotas, e: Event): Quotas {
    match e.op
    case CheckUpload(u, size) => CanUploadStep(config, quotas, u, size, e.now).0
    case RecordUpload(u, size) => RecordUploadStep(quotas, u, size, e.now)
    case RecordDeletion(u, size) => RecordDeletionStep(quotas, u, size)
    case RecordShardHosted(u, size) => RecordShardHostedStep(quotas, u, size, e.now)
    case RecordShardRemoved(u, size) => RecordShardRemovedStep(quotas, u, size)
  }

  function Run(config: QuotaConfig, quotas: Quotas, events: seq<Event>): Quotas
    decreases |events|
  {
    if events == [] then quotas else Run(config, Step(config, quotas, events[0]), events[1..])
  }

  predicate OutOfGrace(quotas: Quotas, user: string) { user in quotas && !quotas[user].inGracePeriod }

  // ---- What is recorded ---------------------------------------------------------------------

  function SizesOf(events: seq<Event>, user: string, counts: Event -> bool): nat {
    if events == [] then 0
    else (if counts(events[0]) && UserOf(events[0]) == user then SizeOf(events[0]) else 0) + SizesOf(events[1..], user, counts)
  }

  function NumberOf(events: seq<Event>, user: string, counts: Event -> bool): nat {
    if events == [] then 0
    else (if counts(events[0]) && UserOf(events[0]) == user then 1 else 0) + NumberOf(events[1..], user, counts)
  }

  function UserOf(e: Event): string { e.op.userId }
  function SizeOf(e: Event): U64 { e.op.size }

  function Uploads(): Event -> bool { (e: Event) => e.op.RecordUpload? }
  function Hostings(): Event -> bool { (e: Event) => e.op.RecordShardHosted? }

  function Used(quotas: Quotas, user: string): nat { if user in quotas then quotas[user].bytesUsed else 0 }
  function Files(quotas: Quotas, user: string): nat { if user in quotas then quotas[user].filesCount else 0 }
  function Contributed(quotas: Quotas, user: string): nat { if user in quotas then quotas[user].bytesContributed else 0 }
  function Hosted(quotas: Quotas, user: string): nat { if user in quotas then quotas[user].shardsHosted else 0 }

  lemma UploadIsCounted(config: QuotaConfig, quotas: Quotas, e: Event, user: string)
    requires !(e.op.RecordDeletion? && e.op.userId == user)
    ensures var end := Step(config, quotas, e);
            var counts := e.op.RecordUpload? && e.op.userId == user;
            && Used(end, user) == WrapAdd(Used(quotas, user), if counts then e.op.size else 0)
            && Files(end, user) == WrapAdd(Files(quotas, user), if counts then 1 else 0)
  {
    hide QuotaAllows, NeededContribution;
  }

  lemma HostingIsCounted(config: QuotaConfig, quotas: Quotas, e: Event, user: string)
    requires !(e.op.RecordShardRemoved? && e.op.userId == user)
    ensures var end := Step(config, quotas, e);
            var counts := e.op.RecordShardHosted? && e.op.userId == user;
            && Contributed(end, user) == WrapAdd(Contributed(quotas, user), if counts then e.op.size else 0)
            && Hosted(end, user) == WrapAdd(Hosted(quotas, user), if counts then 1 else 0)
  {
    hide QuotaAllows, NeededContribution;
  }

  /** Every recorded upload is counted: without deletions, usage grows by the sum of the recorded sizes. */
  lemma {:induction false} UploadsAreCounted(config: QuotaConfig, quotas: Quotas, events: seq<Event>, user: string)
    requires forall i :: 0 <= i < |events| ==> !(events[i].op.RecordDeletion? && events[i].op.userId == user)
    requires Used(quotas, user) + SizesOf(events, user, Uploads()) < U64_LIMIT
    requires Files(quotas, user) + NumberOf(events, user, Uploads()) < U64_LIMIT
    ensures var end := Run(config, quotas, events);
            && Used(end, user) == Used(quotas, user) + SizesOf(events, user, Uploads())
            && Files(end, user) == Files(quotas, user) + NumberOf(events, user, Uploads())
    decreases |events|
  {
    hide Step, Used, Files;
    if events != [] {
      UploadIsCounted(config, quotas, events[0], user);
      UploadsAreCounted(config, Step(config, quotas, events[0]), events[1..], user);
    }
  }

  /** Every hosted shard is counted: without removals, the contribution grows by the sum of the shard sizes. */
  lemma {:induction false} HostingsAreCounted(config: QuotaConfig, quotas: Quotas, events: seq<Event>, user: string)
    requires forall i :: 0 <= i < |events| ==> !(events[i].op.RecordShardRemoved? && events[i].op.userId == user)
    requires Contributed(quotas, user) + SizesOf(events, user, Hostings()) < U64_LIMIT
    requires Hosted(quotas, user) + NumberOf(events, user, Hostings()) < U64_LIMIT
    ensures var end := Run(config, quotas, events);
            && Contributed(end, user) == Contributed(quotas, user) + SizesOf(events, user, Hostings())
            && Hosted(end, user) == Hosted(quotas, user) + NumberOf(events, user, Hostings())
    decreases |events|
  {
    hide Step, Contributed, Hosted;
    if events != [] {
      HostingIsCounted(config, quotas, events[0], user);
      HostingsAreCounted(config, Step(config, quotas, events[0]), events[1..], user);
    }
  }

  /** Deletions and removals take the size away again, stopping at zero, and one from the count. */
  lemma RemovalsAreCounted(config: QuotaConfig, quotas: Quotas, e: Event, user: string)
    requires UserOf(e) == user
    ensures var end := Step(config, quotas, e);
            && (e.op.RecordDeletion? ==>
                  && Used(end, user) == Max(0, Used(quotas, user) - e.op.size)
                  && Files(end, user) == Max(0, Files(quotas, user) - 1)
                  && Contributed(end, user) == Contributed(quotas, user) && Hosted(end, user) == Hosted(quotas, user))
            && (e.op.RecordShardRemoved? ==>
                  && Contributed(end, user) == Max(0, Contributed(quotas, user) - e.op.size)
                  && Hosted(end, user) == Max(0, Hosted(quotas, user) - 1)
                  && Used(end, user) == Used(quotas, user) && Files(end, user) == Files(quotas, user))
  {}

  /** Other users' events, and checks, change none of a user's counters. */
  lemma OthersAreSeparate(config: QuotaConfig, quotas: Quotas, e: Event, user: string)
    requires UserOf(e) != user || e.op.CheckUpload?
    ensures var end := Step(config, quotas, e);
            && Used(end, user) == Used(quotas, user) && Files(end, user) == Files(quotas, user)
            && Contributed(end, user) == Contributed(quotas, user) && Hosted(end, user) == Hosted(quotas, user)
    ensures UserOf(e) != user ==> (user in Step(config, quotas, e) <==> user in quotas)
    ensures UserOf(e) != user && user in quotas ==> Step(config, quotas, e)[user] == quotas[user]
  {}

  /** Who a record is about and when they joined never changes; uploads and hosting mark activity. */
  lemma RecordKeepsIdentity(config: QuotaConfig, quotas: Quotas, e: Event, user: string)
    requires user == UserOf(e)
    ensures var end := Step(config, quotas, e);
            && (user in end <==> user in quotas || e.op.CheckUpload? || e.op.RecordUpload? || e.op.RecordShardHosted?)
            && (user in quotas ==> end[user].userId == quotas[user].userId && end[user].joinedAt == quotas[user].joinedAt)
            && (user in end && user !in quotas ==> end[user].userId == user && end[user].joinedAt == e.now)
            && (e.op.RecordUpload? || e.op.RecordShardHosted? ==> end[user].lastActive == e.now)
            && (user in quotas && !e.op.RecordUpload? && !e.op.RecordShardHosted? ==>
                  end[user].lastActive == quotas[user].lastActive)
            && (user in quotas && !e.op.CheckUpload? ==> end[user].inGracePeriod == quotas[user].inGracePeriod)
            && (user in end && user !in quotas ==> end[user].inGracePeriod && (e.op.CheckUpload? ==> end[user].lastActive == e.now))
  {}

  /** A grace period that is over never comes back. */
  lemma {:induction false} GraceNeverReturns(config: QuotaConfig, quotas: Quotas, events: seq<Event>, user: string)
    requires OutOfGrace(quotas, user)
    ensures OutOfGrace(Run(config, quotas, events), user)
    decreases |events|
  {
    if events != [] {
      GraceNeverReturns(config, Step(config, quotas, events[0]), events[1..], user);
    }
  }

  /** The upload that the user has been allowed and has not yet recorded, after one more event. */
  function NextPending(config: QuotaConfig, quotas: Quotas, e: Event, user: string, pending: Option<U64>): Option<U64> {
    match e.op
    case CheckUpload(u, size) =>
      if u != user then pending
      else if CanUploadStep(config, quotas, u, size, e.now).1.Allowed? then Some(size) else None
    case RecordUpload(u, _) => if u == user then None else pending
    case _ => pending
  }

  /** Hosting the shard does not carry the contribution beyond 64 bits. */
  predicate Countable(quotas: Quotas, e: Event, user: string) {
    e.op.RecordShardHosted? && e.op.userId == user && user in quotas ==>
      quotas[user].bytesContributed + e.op.size < U64_LIMIT
  }

  /** Every upload recorded for the user was allowed for its size, and no hosted shard was removed. */
  predicate Checked(config: QuotaConfig, quotas: Quotas, events: seq<Event>, user: string, pending: Option<U64>)
    decreases |events|
  {
    events == [] ||
    var e := events[0];
    && (e.op.RecordUpload? && e.op.userId == user ==> pending == Some(e.op.size))
    && !(e.op.RecordShardRemoved? && e.op.userId == user)
    && Countable(quotas, e, user)
    && Checked(config, Step(config, quotas, e), events[1..], user, NextPending(config, quotas, e, user, pending))
  }

  function Entitlement(q: UserQuota, config: QuotaConfig): nat {
    Min(Earned(q.bytesContributed, config.contributionRatio), config.maxUsage)
  }

  /** The user stays within `start` or the entitlement, and a pending upload keeps it so. */
  predicate WithinQuota(config: QuotaConfig, quotas: Quotas, user: string, start: nat, pending: Option<U64>) {
    && OutOfGrace(quotas, user)
    && quotas[user].bytesUsed <= Max(start, Entitlement(quotas[user], config))
    && (pending.Some? && pending.value > 0 ==> quotas[user].bytesUsed + pending.value <= Entitlement(quotas[user], config))
  }

  lemma EarnedMonotone(a: nat, b: nat, ratio: Ratio)
    requires a <= b
    ensures Earned(a, ratio) <= Earned(b, ratio)
  {
    QuotientNonnegative(a as real, ratio);
    QuotientNonnegative(b as real, ratio);
    QuotientAtLeast(b as real, ratio, (a as real / ratio).Floor);
    QuotientAtLeast(a as real, ratio, (a as real / ratio).Floor);
  }

  lemma StepWithinQuota(config: QuotaConfig, quotas: Quotas, e: Event, user: string, start: nat, pending: Option<U64>)
    requires WithinQuota(config, quotas, user, start, pending)
    requires e.op.RecordUpload? && e.op.userId == user ==> pending == Some(e.op.size)
    requires !(e.op.RecordShardRemoved? && e.op.userId == user)
    requires Countable(quotas, e, user)
    ensures WithinQuota(config, Step(config, quotas, e), user, start, NextPending(config, quotas, e, user, pending))
  {
    hide Earned;
    if e.op.RecordShardHosted? && e.op.userId == user {
      EarnedMonotone(quotas[user].bytesContributed, quotas[user].bytesContributed + e.op.size, config.contributionRatio);
    }
  }

  /**
   A user out of grace whose uploads are all checked first, and who keeps hosting what was hosted,
   never uses more than at the start or than the contribution entitles to, whichever is larger.
   */
  lemma {:induction false} RunWithinQuota(config: QuotaConfig, quotas: Quotas, events: seq<Event>, user: string, start: nat,
                                          pending: Option<U64>)
    requires WithinQuota(config, quotas, user, start, pending)
    requires Checked(config, quotas, events, user, pending)
    ensures var q := Run(config, quotas, events);
            user in q && q[user].bytesUsed <= Max(start, Entitlement(q[user], config))
    decreases |events|
  {
    hide Earned, Step, NextPending, Entitlement;
    if events != [] {
      StepWithinQuota(config, quotas, events[0], user, start, pending);
      RunWithinQuota(config, Step(config, quotas, events[0]), events[1..], user, start,
                     NextPending(config, quotas, events[0], user, pending));
    }
  }

  /** The bound from any moment at which the user is out of grace. */
  lemma UsageBounded(config: QuotaConfig, quotas: Quotas, events: seq<Event>, user: string)
    requires OutOfGrace(quotas, user) && Checked(config, quotas, events, user, None)
    ensures var q := Run(config, quotas, events);
            OutOfGrace(q, user) && q[user].bytesUsed <= Max(quotas[user].bytesUsed, Entitlement(q[user], config))
  {
    hide Run, Checked, Entitlement;
    GraceNeverReturns(config, quotas, events, user);
    RunWithinQuota(config, quotas, events, user, quotas[user].bytesUsed, None);
  }

  /** The bound from the check that ends the grace period, whose own answer may be used. */
  lemma UsageBoundedFromCheck(config: QuotaConfig, quotas: Quotas, check: Event, events: seq<Event>, user: string)
    requires user in quotas && check.op.CheckUpload? && check.op.userId == user
    requires OutOfGrace(Step(config, quotas, check), user)
    requires Checked(config, quotas, [check] + events, user, None)
    ensures var q := Run(config, quotas, [check] + events);
            OutOfGrace(q, user) && q[user].bytesUsed <= Max(quotas[user].bytesUsed, Entitlement(q[user], config))
  {
    hide Entitlement, Earned;
    var after := Step(config, quotas, check);
    var pending := NextPending(config, quotas, check, user, None);
    assert ([check] + events)[1..] == events;
    assert WithinQuota(config, after, user, quotas[user].bytesUsed, pending) by { AnswerWithinQuota(config, quotas, check, user); }
    GraceNeverReturns(config, after, events, user);
    RunWithinQuota(config, after, events, user, quotas[user].bytesUsed, pending);
  }

  lemma AnswerWithinQuota(config: QuotaConfig, quotas: Quotas, check: Event, user: string)
    requires user in quotas && check.op.CheckUpload? && check.op.userId == user
    requires OutOfGrace(Step(config, quotas, check), user)
    ensures WithinQuota(config, Step(config, quotas, check), user, quotas[user].bytesUsed,
                        NextPending(config, quotas, check, user, None))
  {
    hide Earned;
  }

  /**
   A contribution that passes 64 bits starts over at zero.  Hosting keeps the bound if and only if
   that does not happen, or what is left still covers the usage and a pending upload.
   */
  lemma HostingKeepsBoundExact(config: QuotaConfig, quotas: Quotas, e: Event, user: string, start: nat, pending: Option<U64>)
    requires WithinQuota(config, quotas, user, start, pending)
    requires e.op.RecordShardHosted? && e.op.userId == user
    ensures var q := quotas[user];
            var left := (q.bytesContributed + e.op.size - U64_LIMIT) as real;
            WithinQuota(config, Step(config, quotas, e), user, start, pending) <==>
            || Countable(quotas, e, user)
            || (&& (q.bytesUsed <= start || Price(q.bytesUsed, config.contributionRatio) <= left)
                && (pending.Some? && pending.value > 0 ==>
                      Price(q.bytesUsed + pending.value, config.contributionRatio) <= left))
  {
    hide Earned, Price;
    var q := quotas[user];
    if Countable(quotas, e, user) {
      StepWithinQuota(config, quotas, e, user, start, pending);
    } else {
      var left := q.bytesContributed + e.op.size - U64_LIMIT;
      assert WrapAdd(q.bytesContributed, e.op.size) == left;
      EarnedAtLeast(left, config.contributionRatio, q.bytesUsed);
      if pending.Some? {
        EarnedAtLeast(left, config.contributionRatio, q.bytesUsed + pending.value);
      }
    }
  }

  lemma EarnedAtLeast(contributed: U64, ratio: Ratio, total: nat)
    requires total < U64_LIMIT
    ensures Earned(contributed, ratio) >= total <==> Price(total, ratio) <= contributed as real
  {
    QuotientNonnegative(contributed as real, ratio);
    QuotientAtLeast(contributed as real, ratio, total);
  }

  /** For a user with any usage there is a shard that breaks the bound: the one that reaches exactly zero. */
  lemma OverflowBreaksBound(config: QuotaConfig, quotas: Quotas, e: Event, user: string, start: nat)
    requires OutOfGrace(quotas, user) && start < quotas[user].bytesUsed
    requires e.op.RecordShardHosted? && e.op.userId == user
    requires quotas[user].bytesContributed + e.op.size == U64_LIMIT
    ensures !Countable(quotas, e, user) && !WithinQuota(config, Step(config, quotas, e), user, start, None)
  {
    assert 0.0 / config.contributionRatio == 0.0;
    assert Earned(0, config.contributionRatio) == 0;
  }
}
