/**
 * The server's configuration: the environment variables it reads once at start-up.
 * An unset variable is `None`; the variables with a default in the destructuring
 * (`ALLOWED_ORIGINS = ""`, `SMTP_PORT = "465"`) are plain strings. `smtpPort` and
 * `databaseUrl` only mirror the environment: nothing in the model reads them, since the
 * mail transport and the choice of database engine are outside it.
 */
module Config {
  import opened Wrappers

  datatype Env = Env(
    adminPassword: Option<string>,
    adminTokenSecret: Option<string>,
    allowedOrigins: string,
    smtpHost: Option<string>,
    smtpPort: string,
    smtpUser: Option<string>,
    smtpPass: Option<string>,
    smtpFrom: Option<string>,
    adminEmail: Option<string>,
    sensServiceId: Option<string>,
    sensAccessKey: Option<string>,
    sensSecretKey: Option<string>,
    sensFromNumber: Option<string>,
    adminPhone: Option<string>,
    databaseUrl: Option<string>
  )

  /** JavaScript truthiness of a variable that may be unset: set and not empty. */
  predicate IsSet(v: Option<string>) {
    v.Some? && v.value != []
  }

  /** `createTransport()` returns a transport and `ADMIN_EMAIL` is set: mail is sent. */
  predicate EmailConfigured(env: Env) {
    && IsSet(env.smtpHost) && IsSet(env.smtpUser) && IsSet(env.smtpPass)
    && IsSet(env.smtpFrom) && IsSet(env.adminEmail)
  }

  /** All five SENS variables are set: an SMS is sent. */
  predicate SmsConfigured(env: Env) {
    && IsSet(env.sensServiceId) && IsSet(env.sensAccessKey) && IsSet(env.sensSecretKey)
    && IsSet(env.sensFromNumber) && IsSet(env.adminPhone)
  }
}
