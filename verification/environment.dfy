/** What the admin commands take from outside: settings of the panel and the
    helper routines whose bodies are not part of this model. */
module Environment {

  /** The panel settings the commands read. */
  datatype Settings = Settings(
    mailQuotaEnabled: string,   // system.mail_quota_enabled
    ticketEnabled: string,      // ticket.enabled
    accountPrefix: string,      // customer.accountprefix
    defaultTheme: string,       // panel.default_theme
    standardLanguage: string)   // panel.standardlanguage
  {
    predicate MailQuotaOn() { mailQuotaEnabled == "1" }
    predicate TicketsOn() { ticketEnabled == "1" }
  }

  /** The validation and password routines, supplied by the caller of the model.
      `generatedPassword` stands for the output of the random generator. */
  datatype Collaborators = Collaborators(
    validUsername: string -> bool,
    validEmail: string -> bool,
    validPassword: string -> bool,
    crypt: string -> string,
    generatedPassword: string)
}
