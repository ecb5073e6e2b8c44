/**
 * The group layout of the parser's regular expression (RegexpHTMLParser.REGEXP).
 *
 * The expression is one alternation of tag shapes. Every shape except the
 * comment ends in one or more copies of the VALUE fragment, and each copy of
 * VALUE holds three capturing groups: the double-quoted, the single-quoted and
 * the unquoted form of the attribute value, in that order. The groups are
 * numbered from 1 in the order their VALUE copies appear in the expression.
 */
module Grammar {
  import opened Wrappers

  /** A match result: group g (1 <= g <= |m|) is m[g - 1]; None is a group that did not take part. */
  type Match = seq<Option<string>>

  /** `match.group(g)`: a null group is None. */
  function Group(m: Match, g: nat): Option<string>
    requires 1 <= g <= |m|
  {
    m[g - 1]
  }

  /** How many groups, from group 1 on, may hold a `<base href>` value. */
  const NUM_BASE_GROUPS: nat := 3

  /** Every copy of VALUE contributes this many capturing groups. */
  const GROUPS_PER_VALUE: nat := 3

  /** Seven copies of VALUE appear in the expression. */
  const GROUP_COUNT: nat := 7 * GROUPS_PER_VALUE

  /** Which of VALUE's three forms matched. */
  datatype Quoting = DoubleQuoted | SingleQuoted | Unquoted

  /** The tag shapes of the alternation, in the order they are written. */
  datatype Alternative =
    | Comment          // <!-- ... -->, no capturing group
    | BaseHref         // BASE ... HREF
    | Src              // IMG, SCRIPT, FRAME, IFRAME ... SRC
    | AppletCode       // APPLET ... CODE or CODEBASE
    | EmbedObject      // EMBED, OBJECT ... SRC or CODEBASE
    | Background       // BODY, TABLE, TR, TD ... BACKGROUND
    | InputImage       // INPUT ... SRC, with TYPE=image
    | LinkStylesheet   // LINK ... HREF, with REL=stylesheet

  /** Position of a Quoting's group within its VALUE copy. */
  function QuotingOffset(q: Quoting): nat {
    match q
    case DoubleQuoted => 0
    case SingleQuoted => 1
    case Unquoted => 2
  }

  /** Position of an alternative's VALUE copy in the expression. */
  function ValueIndex(a: Alternative): nat
    requires a != Comment
  {
    match a
    case BaseHref => 0
    case Src => 1
    case AppletCode => 2
    case EmbedObject => 3
    case Background => 4
    case InputImage => 5
    case LinkStylesheet => 6
  }

  /** The group number that holds the value of alternative `a` written in form `q`. */
  function CaptureGroup(a: Alternative, q: Quoting): (g: nat)
    requires a != Comment
    ensures 1 <= g <= GROUP_COUNT
    ensures (g <= NUM_BASE_GROUPS) == (a == BaseHref)
  {
    ValueIndex(a) * GROUPS_PER_VALUE + QuotingOffset(q) + 1
  }

  /** Distinct (alternative, form) pairs capture into distinct groups: no two shapes share a group. */
  lemma CaptureGroupsDistinct(a: Alternative, q: Quoting, a': Alternative, q': Quoting)
    requires a != Comment && a' != Comment
    requires CaptureGroup(a, q) == CaptureGroup(a', q')
    ensures a == a' && q == q'
  {
    var g := CaptureGroup(a, q) - 1;
    assert ValueIndex(a) == g / GROUPS_PER_VALUE == ValueIndex(a');
    assert QuotingOffset(q) == g % GROUPS_PER_VALUE == QuotingOffset(q');
  }

  /**
   * The match result of one occurrence of alternative `a` whose value `v` was
   * written in form `q`: every group is null except the one that shape and form
   * capture into (a comment sets none).
   */
  function TagMatch(a: Alternative, q: Quoting, v: string): (m: Match)
    ensures |m| == GROUP_COUNT
    ensures forall i :: 0 <= i < |m| ==> (m[i].Some? <==> a != Comment && i + 1 == CaptureGroup(a, q))
    ensures a != Comment ==> m[CaptureGroup(a, q) - 1] == Some(v)
  {
    seq(GROUP_COUNT, i => if a != Comment && i + 1 == CaptureGroup(a, q) then Some(v) else None)
  }
}
