/** The records of the service: invoice header, invoice line, user. */
module Models {
  import opened GoStrings

  /** Invoice header: number, issue date and the issuer's CNPJ, as text. */
  datatype Invoice = Invoice(invoiceNumber: Bytes, issueDate: Bytes, cnpj: Bytes)

  /** One invoice line; quantity and value keep the document's own number formatting. */
  datatype ProductInvoice = ProductInvoice(name: Bytes, code: Bytes, quantity: Bytes, unit: Bytes, value: Bytes)

  /** A user's status is free text; two values are named. */
  type UserStatus = Bytes

  const Active: UserStatus := "ACTIVE"
  const Inactive: UserStatus := "INACTIVE"

  datatype Address = Address(cep: Bytes, address: Bytes, neighborhood: Bytes, state: Bytes, city: Bytes)

  datatype User = User(
    id: Bytes,
    name: Bytes,
    email: Bytes,
    birthDate: Bytes,
    phone: Bytes,
    gender: Bytes,
    cpf: Bytes,
    address: Address,
    password: Bytes,
    status: UserStatus)
}
