/** The fixed email templates of the Mail Handler page (`TemplateList` in MailHandler.jsx) and
    what the placeholder merge makes of them. */
module MailTemplates {
  import opened Template

  /** An entry of `TemplateList`. */
  datatype EmailTemplate = EmailTemplate(id: nat, title: string, subject: string, body: string)

  /* The template texts, cut at placeholders and line breaks. */

  const WelcomeText := ",\n\nThank you for joining our platform. " + "We're excited to have you on board!\n\n"
    + "Best regards,\nThe Team"

  const WelcomeBody := "Hi " + (Placeholder("firstName") + WelcomeText)

  const FollowUpBody := "Hi " + (Placeholder("firstName") + (",\n\nI wanted to follow up " + "on our recent conversation "
    + "and see if you have any questions.\n\n" + "Cheers,\nThe Team"))

  const ResetIntro := ",\n\nClick the link below " + "to reset your password:\n"

  const ResetOutro := "\n\nIf you didn't request this, " + "please ignore this email." + "\n\nThanks,\nSupport Team"

  const ResetBody := "Hi " + (Placeholder("firstName") + (ResetIntro + (Placeholder("resetLink") + ResetOutro)))

  const HiringSubjectText := "Exciting Opportunity: " + "Software Engineer at "

  const HiringSubject := HiringSubjectText + Placeholder("companyName")

  const HiringBody := "Hi {{firstName}},\n\n" + "I hope you're doing well. " + "My name is {{hrName}}, "
    + "and I'm a recruiter at {{companyName}}.\n\n" + "We came across your profile "
    + "and were impressed " + "by your experience with {{skillSet}} " + "and your work on {{projectName}}.\n\n"
    + "We're currently hiring " + "for a Software Engineer role " + "on our team and would love to discuss "
    + "how your background " + "could be a great fit.\n\n" + "If you're interested, "
    + "could we schedule a quick call " + "this week? " + "Let me know your availability.\n\n"
    + "Looking forward to your response.\n\n"
    + "Best regards,\n{{hrName}}\n" + "Recruiter, {{companyName}}\n" + "Email: {{hrEmail}}\n" + "Phone: {{hrPhone}}"

  /** `TemplateList`: the fixed templates offered for every file. */
  const TemplateList: seq<EmailTemplate> := [
    EmailTemplate(1, "Welcome Email", "Welcome to Our Service!", WelcomeBody),
    EmailTemplate(2, "Follow-Up Email", "Just Checking In", FollowUpBody),
    EmailTemplate(3, "Password Reset", "Reset Your Password", ResetBody),
    EmailTemplate(4, "Software Engineer Hiring", HiringSubject, HiringBody)
  ]

  /* The plain stretches of text between placeholders hold no `{`. */

  lemma WelcomeTextPlain()
    ensures '{' !in WelcomeText
  {
    assert forall i | 0 <= i < |WelcomeText| :: WelcomeText[i] != '{';
  }

  lemma ResetTextPlain()
    ensures '{' !in ResetIntro && '{' !in ResetOutro
  {
    assert forall i | 0 <= i < |ResetIntro| :: ResetIntro[i] != '{';
    assert forall i | 0 <= i < |ResetOutro| :: ResetOutro[i] != '{';
  }

  lemma HiringSubjectTextPlain()
    ensures '{' !in HiringSubjectText
  {
    assert forall i | 0 <= i < |HiringSubjectText| :: HiringSubjectText[i] != '{';
  }

  /** The welcome email greets the recipient by the mapped first name and is otherwise the
      template text. */
  lemma WelcomeGreeting(m: Merge)
    ensures Fill(WelcomeBody, m) == "Hi " + (m.firstName + WelcomeText)
  {
    WelcomeTextPlain();
    FillTextThenPlaceholder("Hi ", "firstName", WelcomeText, m);
    FillPlain(WelcomeText, m);
  }

  /** The password-reset email has no reset link: `{{resetLink}}` is not one of the map keys, so
      it is replaced by nothing. */
  lemma ResetLinkDropped(m: Merge)
    ensures Fill(ResetBody, m) == "Hi " + (m.firstName + (ResetIntro + ResetOutro))
  {
    ResetTextPlain();
    FillTextThenPlaceholder("Hi ", "firstName", ResetIntro + (Placeholder("resetLink") + ResetOutro), m);
    FillTextThenUnknownKey(ResetIntro, "resetLink", ResetOutro, m);
    FillPlain(ResetOutro, m);
  }

  /** Whatever the row, the hiring subject names no company: `{{companyName}}` is not a map key. */
  lemma HiringSubjectWithoutCompany(m: Merge)
    ensures Fill(HiringSubject, m) == HiringSubjectText
  {
    HiringSubjectTextPlain();
    FillTextEndingInUnknownKey(HiringSubjectText, "companyName", m);
  }
}
