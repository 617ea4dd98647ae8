/** The column families of Zeebe's state (`ZbColumnFamilies`) that have a
    key format registered, by their constant names, and every other constant
    by its name. */
module ColumnFamilies {

  datatype Family =
    | DEFAULT
    | KEY
    | ELEMENT_INSTANCE_PARENT_CHILD
    | ELEMENT_INSTANCE_KEY
    | NUMBER_OF_TAKEN_SEQUENCE_FLOWS
    | ELEMENT_INSTANCE_CHILD_PARENT
    | VARIABLES
    | TIMERS
    | TIMER_DUE_DATES
    | PENDING_DEPLOYMENT
    | DEPLOYMENT_RAW
    | JOBS
    | JOB_STATES
    | JOB_DEADLINES
    | MESSAGE_KEY
    | MESSAGE_DEADLINES
    | MESSAGE_IDS
    | MESSAGE_CORRELATED
    | MESSAGE_PROCESSES_ACTIVE_BY_CORRELATION_KEY
    | MESSAGE_PROCESS_INSTANCE_CORRELATION_KEYS
    | MESSAGE_SUBSCRIPTION_BY_KEY
    | INCIDENTS
    | INCIDENT_PROCESS_INSTANCES
    | INCIDENT_JOBS
    | EVENT_SCOPE
    | EVENT_TRIGGER
    | BANNED_INSTANCE
    | EXPORTER
    | AWAIT_WORKLOW_RESULT
    | JOB_BACKOFF
    | PENDING_DISTRIBUTION
    | COMMAND_DISTRIBUTION_RECORD
    | MESSAGE_STATS
    | PROCESS_INSTANCE_KEY_BY_DEFINITION_KEY
    | MIGRATIONS_STATE
    | PROCESS_VERSION
    | PROCESS_CACHE
    | PROCESS_CACHE_BY_ID_AND_VERSION
    | PROCESS_CACHE_DIGEST_BY_ID
    | DMN_DECISIONS
    | DMN_DECISION_REQUIREMENTS
    | DMN_LATEST_DECISION_BY_ID
    | DMN_LATEST_DECISION_REQUIREMENTS_BY_ID
    | DMN_DECISION_KEY_BY_DECISION_REQUIREMENTS_KEY
    | DMN_DECISION_KEY_BY_DECISION_ID_AND_VERSION
    | DMN_DECISION_REQUIREMENTS_KEY_BY_DECISION_REQUIREMENT_ID_AND_VERSION
    | FORMS
    | FORM_VERSION
    | FORM_BY_ID_AND_VERSION
    | MESSAGES
    | MESSAGE_START_EVENT_SUBSCRIPTION_BY_NAME_AND_KEY
    | MESSAGE_START_EVENT_SUBSCRIPTION_BY_KEY_AND_NAME
    | MESSAGE_SUBSCRIPTION_BY_NAME_AND_CORRELATION_KEY
    | PROCESS_SUBSCRIPTION_BY_KEY
    | JOB_ACTIVATABLE
    | SIGNAL_SUBSCRIPTION_BY_NAME_AND_KEY
    | SIGNAL_SUBSCRIPTION_BY_KEY_AND_NAME
    | USER_TASKS
    | USER_TASK_STATES
    | COMPENSATION_SUBSCRIPTION
    | Other(name: string)
}
