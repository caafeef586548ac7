/**
 * The colour each party is drawn in. There are two copies of the table: the
 * shared constant (used by the overview tab and the tile map) and a second,
 * local copy inside the dashboard's main component that lacks two parties.
 * Both fall back to the gray of the `'Other'` entry.
 */
module PartyColors {

  const OTHER: string := "Other"
  const GRAY: string := "#94a3b8"

  /** The shared table, 14 parties and `'Other'`. */
  const PARTY_COLORS: map<string, string> := map[
    "ประชาชน" := "#f47521",
    "เพื่อไทย" := "#da3731",
    "ภูมิใจไทย" := "#203978",
    "พลังประชารัฐ" := "#1f4888",
    "รวมไทยสร้างชาติ" := "#1e3868",
    "ประชาธิปัตย์" := "#00a3e8",
    "ชาติไทยพัฒนา" := "#ff9eb5",
    "ประชาชาติ" := "#a8784d",
    "ไทยสร้างไทย" := "#005baa",
    "ชาติพัฒนากล้า" := "#f19e38",
    "กล้าธรรม" := "#22c55e",
    "เสรีรวมไทย" := "#eed341",
    "เป็นธรรม" := "#0097a8",
    "ไทรวมพลัง" := "#ec4899",
    OTHER := GRAY
  ]

  /** The dashboard component's own table, 12 parties and `'Other'`. */
  const DASHBOARD_COLORS: map<string, string> := map[
    "ประชาชน" := "#f47521",
    "เพื่อไทย" := "#da3731",
    "ภูมิใจไทย" := "#203978",
    "พลังประชารัฐ" := "#1f4888",
    "รวมไทยสร้างชาติ" := "#1e3868",
    "ประชาธิปัตย์" := "#00a3e8",
    "ชาติไทยพัฒนา" := "#ff9eb5",
    "ประชาชาติ" := "#a8784d",
    "ไทยสร้างไทย" := "#005baa",
    "ชาติพัฒนากล้า" := "#f19e38",
    "เสรีรวมไทย" := "#eed341",
    "เป็นธรรม" := "#0097a8",
    OTHER := GRAY
  ]

  /** `table[name] || table['Other']`: an empty colour would also fall back. */
  function ColorIn(table: map<string, string>, name: string): string
    requires OTHER in table
  {
    if name in table && table[name] != "" then table[name] else table[OTHER]
  }

  /** `getPartyColor` of the shared table: a listed party gets its colour,
      anything else gets the gray of `'Other'`, and every answer is a colour
      of the table. */
  function GetPartyColor(name: string): (c: string)
    ensures name in PARTY_COLORS ==> c == PARTY_COLORS[name]
    ensures name !in PARTY_COLORS ==> c == GRAY
    ensures c in PARTY_COLORS.Values
  {
    ColorIn(PARTY_COLORS, name)
  }

  /** `getPartyColor` of the dashboard component's table. */
  function DashboardPartyColor(name: string): (c: string)
    ensures name in DASHBOARD_COLORS ==> c == DASHBOARD_COLORS[name]
    ensures name !in DASHBOARD_COLORS ==> c == GRAY
    ensures c in DASHBOARD_COLORS.Values
  {
    ColorIn(DASHBOARD_COLORS, name)
  }

  /** Gray marks exactly `'Other'` and the unlisted names: no party is drawn
      in it. */
  lemma GrayOnlyForOther(name: string)
    ensures GetPartyColor(name) == GRAY <==> name == OTHER || name !in PARTY_COLORS
  {
  }

  /** The two tables agree on every name except the two parties missing from
      the dashboard's copy, which it draws in gray. */
  lemma TablesDiffer(name: string)
    ensures name != "กล้าธรรม" && name != "ไทรวมพลัง" ==> DashboardPartyColor(name) == GetPartyColor(name)
    ensures DashboardPartyColor("กล้าธรรม") == GRAY && GetPartyColor("กล้าธรรม") == "#22c55e"
    ensures DashboardPartyColor("ไทรวมพลัง") == GRAY && GetPartyColor("ไทรวมพลัง") == "#ec4899"
  {
  }
}
