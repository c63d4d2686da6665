/** The user-facing text of the pull-request report (src/strings.ts). */
module UserStrings {
  /** The report's opening lines, ending in a blank line. */
  const PR_REPORT_HEADER: string :=
    "## EOL Blocker Validation Failed\n\nThe following files in this pull request have Windows-style line endings:\n\n"

  /** The report's closing instructions. */
  const PR_REPORT_FOOTER: string :=
    "### How to fix\n\nThis is typically caused by uploading files directly to GitHub using the **Add file** -> **Upload files** button on GitHub.com. To fix these errors and unblock your pull request, follow these steps.\n\n#### GitHub Desktop\n\n1. Do something...\n\n#### git CLI\n\n1. Do something...."

  /** The introduction to the fix commands. The report template refers to it, but
      src/strings.ts does not define it, so it is left as an arbitrary string. */
  const PR_REPORT_FIX_INTRO: string
}
