/** The two records of main.go: the configuration document and one migration job. */
module Records {

  /** The settings read from sync.yml; `threads` is the worker-pool size. */
  datatype Config = Config(
    source: string,
    destination: string,
    errors: string,
    threads: int,
    mailsFile: string)

  /** One mailbox to migrate: credentials on the source host and on the destination host. */
  datatype Mail = Mail(login1: string, pass1: string, login2: string, pass2: string)
}
