/** The free-slot badge that `createEventCard` puts on every event card: a CSS
    class and a label, both chosen by the thresholds 1 and 3. */
module Badge {

  datatype Tier = Last | Limited | Available

  /** The decimal digit for `d`. */
  function Digit(d: nat): (c: char)
    requires d < 10
    ensures '0' <= c <= '9' && c as int - '0' as int == d
  {
    ('0' as int + d) as char
  }

  /** The decimal digits of `n`. This is how a template literal writes a JavaScript
      number holding the integer `n`, for `n <= 2^53`. */
  function Decimal(n: nat): (r: string)
    ensures |r| >= 1
    ensures forall i :: 0 <= i < |r| ==> '0' <= r[i] <= '9'
    ensures |r| > 1 ==> r[0] != '0'
  {
    if n < 10 then [Digit(n)] else Decimal(n / 10) + [Digit(n % 10)]
  }

  /** The value of a string of decimal digits. */
  function DecimalValue(s: string): (v: nat)
    requires forall i :: 0 <= i < |s| ==> '0' <= s[i] <= '9'
  {
    if s == [] then 0 else 10 * DecimalValue(s[..|s| - 1]) + (s[|s| - 1] as int - '0' as int)
  }

  /** The label's number reads back as the free-slot count. */
  lemma {:induction false} DecimalRoundTrip(n: nat)
    ensures DecimalValue(Decimal(n)) == n
  {
    if n >= 10 {
      DecimalRoundTrip(n / 10);
      assert Decimal(n)[..|Decimal(n)| - 1] == Decimal(n / 10);
    }
  }

  datatype EventBadge = EventBadge(cssClass: string, text: string)

  /** The badge for `freiePlaetze` free slots. The class and the label are two
      separate conditionals over the same thresholds. */
  function BadgeFor(freiePlaetze: int): (b: EventBadge)
    ensures freiePlaetze <= 1 ==> b == EventBadge("event-badge--last", "Letzter Platz!")
    ensures 2 <= freiePlaetze <= 3 ==>
      b == EventBadge("event-badge--limited", "Nur " + Decimal(freiePlaetze) + " Plätze")
    ensures freiePlaetze > 3 ==>
      b == EventBadge("event-badge--available", Decimal(freiePlaetze) + " Plätze frei")
  {
    var badgeClass :=
      if freiePlaetze <= 1 then "event-badge--last"
      else if freiePlaetze <= 3 then "event-badge--limited"
      else "event-badge--available";
    var badgeText :=
      if freiePlaetze <= 1 then "Letzter Platz!"
      else if freiePlaetze <= 3 then "Nur " + Decimal(freiePlaetze) + " Plätze"
      else Decimal(freiePlaetze) + " Plätze frei";
    EventBadge(badgeClass, badgeText)
  }

  /** The tier a count falls in. */
  function TierOf(freiePlaetze: int): (t: Tier)
    ensures t == Last <==> freiePlaetze <= 1
    ensures t == Limited <==> 2 <= freiePlaetze <= 3
    ensures t == Available <==> freiePlaetze > 3
  {
    if freiePlaetze <= 1 then Last else if freiePlaetze <= 3 then Limited else Available
  }

  /** Urgency order: fewer free slots never give a less urgent tier. */
  function Urgency(t: Tier): (u: nat) {
    match t
    case Last => 2
    case Limited => 1
    case Available => 0
  }

  lemma TierMonotone(m: int, n: int)
    requires m <= n
    ensures Urgency(TierOf(n)) <= Urgency(TierOf(m))
  {
  }

  /** The tier a CSS class names. */
  function ClassTier(cssClass: string): (t: Tier) {
    if cssClass == "event-badge--last" then Last
    else if cssClass == "event-badge--limited" then Limited
    else Available
  }

  /** The tier a label belongs to, read off the label's text. */
  function TextTier(text: string): (t: Tier) {
    if text == "Letzter Platz!" then Last
    else if |text| >= 4 && text[..4] == "Nur " then Limited
    else Available
  }

  /** The class and the label of every badge come from the same tier, the one
      the count falls in. */
  lemma BadgeTiersAgree(freiePlaetze: int)
    ensures ClassTier(BadgeFor(freiePlaetze).cssClass) == TierOf(freiePlaetze)
    ensures TextTier(BadgeFor(freiePlaetze).text) == TierOf(freiePlaetze)
  {
    var b := BadgeFor(freiePlaetze);
    if 2 <= freiePlaetze <= 3 {
      assert b.text[..4] == "Nur ";
      assert b.text[0] == 'N';
    } else if freiePlaetze > 3 {
      var d := Decimal(freiePlaetze);
      assert b.text[0] == d[0];
      assert '0' <= b.text[0] <= '9';
    }
  }
}
