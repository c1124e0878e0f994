/**
 * What a launch card shows (src/components/LaunchCard.tsx): its status class, the status
 * badge, the success or failure icon and the preview of the details text.
 */
module LaunchCard {
  import opened Wrappers
  import opened Types
  import opened Filters

  /** `statusColor`, the suffix of the card's `launch-...` class:
      `'upcoming' | 'success' | 'failed' | 'unknown'`. */
  datatype Status = StatusUpcoming | StatusSuccess | StatusFailed | StatusUnknown

  /** An upcoming launch is `'upcoming'` whatever its outcome field says; otherwise the
      tri-state outcome decides. */
  function StatusColor(launch: Launch): (status: Status)
    ensures status == StatusUpcoming <==> launch.upcoming
    ensures status == StatusSuccess <==> !launch.upcoming && launch.success == Some(true)
    ensures status == StatusFailed <==> !launch.upcoming && launch.success == Some(false)
    ensures status == StatusUnknown <==> !launch.upcoming && launch.success == None
  {
    OutcomeCases(launch.success);
    if launch.upcoming then StatusUpcoming
    else if launch.success == Some(true) then StatusSuccess
    else if launch.success == Some(false) then StatusFailed
    else StatusUnknown
  }

  datatype Badge = UpcomingBadge | SuccessfulBadge | FailedBadge

  /** The badges rendered in `launch-status`, in order; each of the three is guarded by
      its own condition. */
  function Badges(launch: Launch): (badges: seq<Badge>)
    ensures |badges| <= 1
    ensures badges == [] <==> !launch.upcoming && launch.success == None
  {
    OutcomeCases(launch.success);
    (if launch.upcoming then [UpcomingBadge] else [])
    + (if !launch.upcoming && launch.success == Some(true) then [SuccessfulBadge] else [])
    + (if !launch.upcoming && launch.success == Some(false) then [FailedBadge] else [])
  }

  /** The badge says what the card's status class says, and no badge means `'unknown'`. */
  lemma BadgeMatchesStatus(launch: Launch)
    ensures Badges(launch) == [UpcomingBadge] <==> StatusColor(launch) == StatusUpcoming
    ensures Badges(launch) == [SuccessfulBadge] <==> StatusColor(launch) == StatusSuccess
    ensures Badges(launch) == [FailedBadge] <==> StatusColor(launch) == StatusFailed
    ensures Badges(launch) == [] <==> StatusColor(launch) == StatusUnknown
  {
    BadgeCases(launch);
  }

  /** Which single badge, if any, a card shows. */
  lemma BadgeCases(launch: Launch)
    ensures launch.upcoming ==> Badges(launch) == [UpcomingBadge]
    ensures !launch.upcoming && launch.success == Some(true) ==> Badges(launch) == [SuccessfulBadge]
    ensures !launch.upcoming && launch.success == Some(false) ==> Badges(launch) == [FailedBadge]
    ensures !launch.upcoming && launch.success == None ==> Badges(launch) == []
  {
    var none: seq<Badge> := [];
    if launch.upcoming {
      assert Badges(launch) == [UpcomingBadge] + none + none;
    } else if launch.success == Some(true) {
      assert Badges(launch) == none + [SuccessfulBadge] + none;
    } else if launch.success == Some(false) {
      assert Badges(launch) == none + none + [FailedBadge];
    }
  }

  datatype Icon = CheckCircle | XCircle

  /** The icon in `status-icon`: shown whenever `success !== null`, whether or not the
      launch is upcoming; a check mark for `true`, a cross for `false`. */
  function StatusIcon(launch: Launch): (icon: Option<Icon>)
    ensures icon.Some? <==> launch.success.Some?
    ensures icon == Some(CheckCircle) <==> launch.success == Some(true)
    ensures icon == Some(XCircle) <==> launch.success == Some(false)
  {
    match launch.success
    case None => None
    case Some(succeeded) => Some(if succeeded then CheckCircle else XCircle)
  }

  /** For a past launch the icon agrees with the badge; an upcoming launch whose outcome
      field is set shows the upcoming badge beside a success or failure icon. */
  lemma IconAgreesWithBadge(launch: Launch)
    ensures !launch.upcoming ==>
              (StatusIcon(launch) == Some(CheckCircle) <==> Badges(launch) == [SuccessfulBadge])
              && (StatusIcon(launch) == Some(XCircle) <==> Badges(launch) == [FailedBadge])
    ensures launch.upcoming && launch.success.Some? ==>
              Badges(launch) == [UpcomingBadge] && StatusIcon(launch).Some?
  {
    OutcomeCases(launch.success);
    BadgeCases(launch);
  }

  /** The details preview: absent for absent or empty details, otherwise the first
      `min(100, length)` characters followed by `"..."`, even when nothing was cut. */
  function DetailsPreview(details: Option<string>): (preview: Option<string>)
    ensures preview.None? <==> details == None || details == Some("")
    ensures preview.Some? ==>
              var text := details.value;
              var keep := if |text| < 100 then |text| else 100;
              |preview.value| == keep + 3
              && preview.value[..keep] == text[..keep]
              && preview.value[keep..] == "..."
  {
    match details
    case None => None
    case Some(text) =>
      if text == "" then None
      else Some(text[..if |text| < 100 then |text| else 100] + "...")
  }

  /** The preview agrees with `truncateText(details, 100)` on long details; on details
      of at most 100 characters it adds the `"..."` that `truncateText` leaves off. */
  lemma PreviewVersusTruncate(text: string)
    requires text != ""
    ensures |text| > 100 ==> DetailsPreview(Some(text)) == Some(TruncateText(Some(text), 100))
    ensures |text| <= 100 ==> DetailsPreview(Some(text)) == Some(TruncateText(Some(text), 100) + "...")
  {
    if |text| <= 100 {
      assert text[..|text|] == text;
    }
  }
}
