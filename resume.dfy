/**
 * The structured resume record the parser produces and the matcher consumes
 * (src/lib/parser.ts), and the loose text heuristics the parser consults.
 */
module Resume {
  import opened Wrappers

  datatype ContactInfo = ContactInfo(
    name: string,
    email: string,
    phone: string,
    location: string,
    links: seq<string>)

  datatype ExperienceEntry = ExperienceEntry(
    company: string,
    title: string,
    start: string,
    end: string,
    bullets: seq<string>)

  datatype EducationEntry = EducationEntry(
    institution: string,
    degree: string,
    year: string,
    bullets: seq<string>)

  /** `extras` is a record from section key to that section's raw lines. */
  datatype ResumeJson = ResumeJson(
    contact: ContactInfo,
    summary: string,
    skills: seq<string>,
    experience: seq<ExperienceEntry>,
    education: seq<EducationEntry>,
    extras: map<string, seq<string>>)

  /**
   * The regular expressions the model does not interpret, as functions supplied by the caller:
   *  - isEmail:      `emailRegex.test(line)`
   *  - phoneMatch:   `line.match(phoneRegex)?.[0]` (and so `phoneRegex.test(line)` is `phoneMatch(line).Some?`)
   *  - urlMatches:   `line.match(urlRegex) ?? []`, every URL-like substring in order
   *  - stripUrls:    `line.replace(urlRegex, "")`
   *  - isLocation:   the location pattern of `inferLocation`
   *  - isNamedRange: the first alternative of `isNewExperienceHeading`, two or more words, a dash, a word
   */
  datatype Heuristics = Heuristics(
    isEmail: string -> bool,
    phoneMatch: string -> Option<string>,
    urlMatches: string -> seq<string>,
    stripUrls: string -> string,
    isLocation: string -> bool,
    isNamedRange: string -> bool)

  /** `phoneRegex` (src/lib/parser.ts:51) needs at least ten characters, so it never matches the empty line. */
  predicate PhoneNeedsText(h: Heuristics)
  {
    h.phoneMatch("").None?
  }
}
