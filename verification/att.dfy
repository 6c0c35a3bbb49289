/** Attribute Protocol constants, error replies and the client's reply matcher
    (Bluetooth Core Specification, Vol 3 Part F, section 3.4). */
module Att {
  import opened Bytes

  const ERROR: byte := 0x01
  const MTU_REQ: byte := 0x02
  const MTU_RESP: byte := 0x03
  const FIND_INFO_REQ: byte := 0x04
  const FIND_INFO_RESP: byte := 0x05
  const FIND_BY_TYPE_VALUE_REQ: byte := 0x06
  const FIND_BY_TYPE_VALUE_RESP: byte := 0x07
  const READ_BY_TYPE_REQ: byte := 0x08
  const READ_BY_TYPE_RESP: byte := 0x09
  const READ_REQ: byte := 0x0A
  const READ_RESP: byte := 0x0B
  const READ_BLOB_REQ: byte := 0x0C
  const READ_BLOB_RESP: byte := 0x0D
  const READ_MULTI_REQ: byte := 0x0E
  const READ_MULTI_RESP: byte := 0x0F
  const READ_BY_GROUP_REQ: byte := 0x10
  const READ_BY_GROUP_RESP: byte := 0x11
  const WRITE_REQ: byte := 0x12
  const WRITE_RESP: byte := 0x13
  const PREP_WRITE_REQ: byte := 0x16
  const PREP_WRITE_RESP: byte := 0x17
  const EXEC_WRITE_REQ: byte := 0x18
  const EXEC_WRITE_RESP: byte := 0x19
  const HANDLE_NOTIFY: byte := 0x1B
  const HANDLE_IND: byte := 0x1D
  const HANDLE_CNF: byte := 0x1E
  const WRITE_CMD: byte := 0x52

  const INVALID_HANDLE: byte := 0x01
  const READ_NOT_PERM: byte := 0x02
  const WRITE_NOT_PERM: byte := 0x03
  const REQ_NOT_SUPP: byte := 0x06
  const INVALID_OFFSET: byte := 0x07
  const ATTR_NOT_FOUND: byte := 0x0A
  const INVAL_ATTR_VALUE_LEN: byte := 0x0D
  const UNSUPP_GRP_TYPE: byte := 0x10

  const CHAR_READ: nat := 0x02
  const CHAR_WRITE_NR: nat := 0x04
  const CHAR_WRITE: nat := 0x08

  const PRIMARY_SERVICE: bytes := [0x00, 0x28]
  const CHARACTERISTIC: bytes := [0x03, 0x28]
  const CLIENT_CONFIG: bytes := [0x02, 0x29]

  const DEFAULT_MTU: nat := 23
  const MAX_MTU: nat := 256

  /** UUIDs are kept in wire order and have 2 or 16 bytes. */
  predicate IsUuid(u: bytes) { |u| == 2 || |u| == 16 }

  function ErrorResp(op: byte, h: nat, code: byte): bytes
  {
    [ERROR, op, Low(h), High(h), code]
  }

  /** The map from request to response opcode; a missing key reads as 0. */
  function RespFor(op: byte): byte
  {
    if op == MTU_REQ then MTU_RESP
    else if op == FIND_INFO_REQ then FIND_INFO_RESP
    else if op == FIND_BY_TYPE_VALUE_REQ then FIND_BY_TYPE_VALUE_RESP
    else if op == READ_BY_TYPE_REQ then READ_BY_TYPE_RESP
    else if op == READ_REQ then READ_RESP
    else if op == READ_BLOB_REQ then READ_BLOB_RESP
    else if op == READ_MULTI_REQ then READ_MULTI_RESP
    else if op == READ_BY_GROUP_REQ then READ_BY_GROUP_RESP
    else if op == WRITE_REQ then WRITE_RESP
    else if op == PREP_WRITE_REQ then PREP_WRITE_RESP
    else if op == EXEC_WRITE_REQ then EXEC_WRITE_RESP
    else 0
  }

  /** The condition under which the client hands reply `r` to the caller
      whose request had opcode `op`. */
  predicate Answers(op: byte, r: bytes)
  {
    |r| >= 1 && (r[0] == RespFor(op) || (r[0] == ERROR && |r| >= 2 && r[1] == op))
  }
}
